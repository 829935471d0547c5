/** The kernel heap of src/lib/kmalloc.c: `kmalloc_init`, `kmalloc` and `kfree`. */
module KernelHeap {
  import opened LittleEndian
  import opened HeapMemory
  import opened HeapBlocks
  import opened HeapList
  import opened HeapAllocation
  import opened HeapRelease
  import opened HeapRuns

  const KERNEL_MALLOC_SIZE_SIZE := 8
  const ADDRESSES := MAX_WORD + 1

  lemma OneBlockOk(m: Bytes, b: Block)
    requires Placed(m) && b == Block(m.base, KERNEL_HEAP_SIZE, true)
    requires HeaderAt(m, b.addr) == Header(START_OF_HEAP, END_OF_HEAP, b.size)
    ensures var ok := HeapOk(m, b.addr, [b]); ok
  {
    OneTiles(b);
    Single(b);
    LinkedAlone(m, b);
    OneSized(m, b);
  }

  lemma LinkedAlone(m: Bytes, b: Block)
    requires m.Has(b.addr, FREE_HEADER_SIZE) && HeaderAt(m, b.addr) == Header(START_OF_HEAP, END_OF_HEAP, b.size)
    ensures var linked := Linked(m, b.addr, [b]); linked
  {
    assert [b][..0] == [] && [b][1..] == [];
    assert LinkedAt(m, b, [b], 0);
  }

  lemma NoneFree(m: Bytes, first: int, blocks: seq<Block>)
    requires var ok := HeapOk(m, first, blocks); ok
    ensures first == 0 <==> FreeOf(blocks) == []
  {
    FreeApart(blocks, m.base, m.base + KERNEL_HEAP_SIZE);
  }

  lemma NoneFit(blocks: seq<Block>, need: int)
    requires FreeOf(blocks) == []
    ensures FirstFit(blocks, need) == |blocks|
  {
    var j := FitAmongFree(blocks, need);
  }

  lemma {:induction false} SomeFree(blocks: seq<Block>, need: int)
    ensures FirstFit(blocks, need) < |blocks| ==> FreeOf(blocks) != []
  {
    if FreeOf(blocks) == [] {
      NoneFit(blocks, need);
    }
  }

  /** The bytes that a request takes; the sum wraps. */
  function AllocSize(size: nat): nat {
    (size + KERNEL_MALLOC_HEADER_SIZE) % ADDRESSES
  }

  /** The request holds its size word, and what is left of the block holds a header. */
  predicate TakesWell(b: Block, need: nat) {
    need >= KERNEL_MALLOC_HEADER_SIZE && SplitsWell(b, need)
  }

  /** The header of what is left of the block would reach behind the heap. */
  predicate SpillsOut(m: Bytes, b: Block, need: nat) {
    b.size != need && b.addr + need + FREE_HEADER_SIZE > m.base + |m.data|
  }

  lemma AllocSizeWraps(size: nat)
    requires size <= MAX_WORD
    ensures AllocSize(size) >= KERNEL_MALLOC_HEADER_SIZE ==> AllocSize(size) == size + KERNEL_MALLOC_HEADER_SIZE
  {
  }

  /** `outside` is a header that reaches behind the heap. */
  method TakeFrom(m: Bytes, first: int, ghost blocks: seq<Block>, block: int, size: nat, ghost k: nat)
    returns (m': Bytes, first': int, outside: bool)
    requires var ok := HeapOk(m, first, blocks); ok && k < |blocks| && blocks[k].free && block == blocks[k].addr
    requires size <= MAX_WORD && blocks[k].size >= AllocSize(size)
    ensures outside <==> SpillsOut(m, blocks[k], AllocSize(size))
    ensures var ok := HeapOk(m', first', Allocated(blocks, k, AllocSize(size)));
      ok <==> TakesWell(blocks[k], AllocSize(size))
    ensures TakesWell(blocks[k], AllocSize(size)) ==> !outside && var kept := LiveKept(m, m', blocks); kept
  {
    var need := AllocSize(size);
    AllocSizeWraps(size);
    var prev_free_block := BeforeTake(m, first, blocks, block, k, need);
    if prev_free_block.size != need && !m.Has(block + need, FREE_HEADER_SIZE) {
      TakenBadly(m, first, blocks, k, need, m, first);
      return m, first, true;
    }
    m', first' := StoreTaken(m, first, blocks, block, size, k, prev_free_block, need);
    outside := false;
  }

  /** Relink around block `k`, and store the size word. */
  method StoreTaken(m: Bytes, first: int, ghost blocks: seq<Block>, block: int, size: nat, ghost k: nat,
          prev_free_block: Header, need: nat)
    returns (m': Bytes, first': int)
    requires var ok := HeapOk(m, first, blocks); ok && k < |blocks| && blocks[k].free && block == blocks[k].addr
    requires size <= MAX_WORD && (need >= KERNEL_MALLOC_HEADER_SIZE ==> need == size + KERNEL_MALLOC_HEADER_SIZE)
    requires blocks[k].size >= need && prev_free_block == HeaderOf(blocks, k) && m.Has(block, 8)
    requires var can := CanStore(m, block, prev_free_block, need); can
    requires SplitsWell(blocks[k], need) ==> var can := CanRelink(m, block, prev_free_block, need); can
    ensures var ok := HeapOk(m', first', Allocated(blocks, k, need)); ok <==> TakesWell(blocks[k], need)
    ensures TakesWell(blocks[k], need) ==> var kept := LiveKept(m, m', blocks); kept
  {
    m', first' := Relink(m, first, block, prev_free_block, need);
    ghost var m1 := m';
    m' := StoreWord(m', block, size);
    if TakesWell(blocks[k], need) {
      AfterTake(m, first, blocks, k, need, m1, m', first');
    } else {
      TakenBadly(m, first, blocks, k, need, m', first');
    }
  }

  lemma TakenBadly(m: Bytes, first: int, blocks: seq<Block>, k: nat, need: nat, m': Bytes, first': int)
    requires var ok := HeapOk(m, first, blocks); ok && k < |blocks| && blocks[k].size >= need
    requires m'.base == m.base && !TakesWell(blocks[k], need)
    ensures var ok := HeapOk(m', first', Allocated(blocks, k, need)); !ok
  {
    AllocatedTiles(blocks, k, need, m.base, m.base + KERNEL_HEAP_SIZE);
  }

  class Heap {
    var mem: Bytes
    var first_free: int

    /** What the bytes represent. */
    ghost var blocks: seq<Block>

    ghost predicate Valid()
      reads this
    {
      var ok := HeapOk(mem, first_free, blocks);
      ok
    }

    /** `kmalloc_init`, on `KERNEL_HEAP_SIZE` bytes at `heap_start`. */
    constructor (heap_start: int)
      requires 0 < heap_start && heap_start + KERNEL_HEAP_SIZE < END_OF_HEAP
      ensures Valid() && blocks == [Block(heap_start, KERNEL_HEAP_SIZE, true)]
    {
      var m := Bytes(heap_start, seq(KERNEL_HEAP_SIZE, _ => 0));
      assert m.Has(heap_start, FREE_HEADER_SIZE);
      m := SetPrev(m, heap_start, START_OF_HEAP);
      m := SetNext(m, heap_start, END_OF_HEAP);
      m := SetSize(m, heap_start, KERNEL_HEAP_SIZE);
      mem := m;
      first_free := heap_start;
      blocks := [Block(heap_start, KERNEL_HEAP_SIZE, true)];
      new;
      OneBlockOk(mem, blocks[0]);
    }

    /** `kmalloc`: the first fit, or null when there is no free block at all.  If there are free blocks and none fits,
        the walk leaves the heap, and if what is left of the last block cannot hold a header, a store does (`outside`).
        The bytes represent blocks again exactly if nothing fits, or the request is split off well. */
    method Kmalloc(size: nat) returns (ptr: int, outside: bool)
      requires Valid() && size <= MAX_WORD
      modifies this
      ensures var k := FirstFit(old(blocks), AllocSize(size));
        Valid() <==> k == |old(blocks)| || TakesWell(old(blocks)[k], AllocSize(size))
      ensures var k := FirstFit(old(blocks), AllocSize(size));
        outside <==>
          if k == |old(blocks)| then FreeOf(old(blocks)) != [] else SpillsOut(old(mem), old(blocks)[k], AllocSize(size))
      ensures var k := FirstFit(old(blocks), AllocSize(size));
        if k == |old(blocks)| then blocks == old(blocks) && mem == old(mem) && (!outside ==> ptr == 0)
        else
          blocks == Allocated(old(blocks), k, AllocSize(size)) && ptr == old(blocks)[k].addr + 8
      // the bytes asked for end where the block ends
      ensures var k := FirstFit(old(blocks), AllocSize(size));
        k < |old(blocks)| && Valid() ==>
          k < |blocks| && !blocks[k].free && ptr + size == blocks[k].End() && ptr == blocks[k].addr + 8
      ensures Valid() ==> var kept := LiveKept(old(mem), mem, old(blocks)); kept
    {
      var alloc_size := AllocSize(size);
      var free_block := first_free;
      outside := false;
      NoneFree(mem, first_free, blocks);
      if first_free == 0 {
        NoneFit(blocks, alloc_size);
        return 0, false;
      }
      free_block, outside := Walk(mem, first_free, blocks, alloc_size);
      SomeFree(blocks, alloc_size);
      if outside {
        return 0, true;
      }
      ptr, outside := Take(free_block, size, FirstFit(blocks, alloc_size));
    }

    /** Give out block `k`, at the address where the walk stopped. */
    method Take(block: int, size: nat, ghost k: nat) returns (ptr: int, outside: bool)
      requires Valid() && k < |blocks| && blocks[k].free && block == blocks[k].addr
      requires size <= MAX_WORD && blocks[k].size >= AllocSize(size)
      modifies this
      ensures blocks == Allocated(old(blocks), k, AllocSize(size))
      ensures Valid() <==> TakesWell(old(blocks)[k], AllocSize(size))
      ensures Valid() ==> !outside && var kept := LiveKept(old(mem), mem, old(blocks)); kept
      ensures outside <==> SpillsOut(old(mem), old(blocks)[k], AllocSize(size))
      ensures ptr == block + 8
    {
      mem, first_free, outside := TakeFrom(mem, first_free, blocks, block, size, k);
      blocks := Allocated(blocks, k, AllocSize(size));
      return block + KERNEL_MALLOC_SIZE_SIZE, outside;
    }

    /** `kfree` of a pointer that `kmalloc` gave out, and of null.  Block `k` becomes free; whether the list still
        represents that is decided by `FreesWell`.  With no free block at all nothing is done and the block is lost.
        `outside` is a header that reaches behind the heap. */
    method Kfree(ptr: int, ghost k: nat) returns (outside: bool)
      requires Valid()
      requires ptr != 0 ==> k < |blocks| && !blocks[k].free && ptr == blocks[k].addr + 8
      modifies this
      ensures ptr == 0 ==> blocks == old(blocks) && Valid()
      ensures ptr == 0 || FreeOf(old(blocks)) == [] ==> !outside && mem == old(mem) && first_free == old(first_free)
      ensures ptr != 0 ==> blocks == Freed(old(blocks), k)
      ensures ptr != 0 ==> (Valid() <==> FreesWell(old(mem), old(blocks), k))
      ensures ptr != 0 && FreeOf(old(blocks)) != [] ==>
        (outside <==> !old(mem).Has(old(blocks)[k].addr, FREE_HEADER_SIZE))
      ensures ptr != 0 && CanDo(old(blocks), Free(k)) ==> Valid() && blocks == Do(old(blocks), Free(k))
      ensures ptr != 0 && FreesWell(old(mem), old(blocks), k) ==> var kept := LiveKept(old(mem), mem, blocks); kept
    {
      if ptr == 0 {
        return false;
      }
      var header_adr := ptr - KERNEL_MALLOC_SIZE_SIZE;
      var size := SizeOf(mem, first_free, blocks, k, header_adr);
      NoneFree(mem, first_free, blocks);
      outside := false;
      if first_free == 0 {
        EmptyList(mem, blocks, k);
      } else {
        var m, first;
        m, first, outside := Release(mem, first_free, blocks, k, header_adr, size);
        ReleasedParts(mem, blocks, k, m, first);
        mem, first_free := m, first;
      }
      blocks := Freed(blocks, k);
    }
  }

  /** `*header_start + KERNEL_MALLOC_HEADER_SIZE`. */
  method SizeOf(m: Bytes, ghost first: int, ghost blocks: seq<Block>, ghost k: nat, header_adr: int) returns (size: nat)
    requires var ok := HeapOk(m, first, blocks); ok && k < |blocks| && !blocks[k].free && header_adr == blocks[k].addr
    ensures size == blocks[k].size <= MAX_WORD
  {
    OkParts(m, first, blocks);
    BlockPlace(m, blocks, k);
    size := m.Load(header_adr) + KERNEL_MALLOC_HEADER_SIZE;
  }

  lemma EmptyList(m: Bytes, blocks: seq<Block>, k: nat)
    requires k < |blocks| && FreeOf(blocks) == [] && !blocks[k].free
    ensures !FreesWell(m, blocks, k)
    ensures var ok := HeapOk(m, START_OF_HEAP, Freed(blocks, k)); !ok
  {
    LiveAmongFree(blocks, k);
    NeverEmpty(m, blocks, k);
  }

  // ---------- Runs that end badly ----------

  lemma NoWrap(size: nat)
    requires size + KERNEL_MALLOC_HEADER_SIZE <= MAX_WORD
    ensures AllocSize(size) == size + KERNEL_MALLOC_HEADER_SIZE
  {
  }

  lemma CanTake(blocks: seq<Block>, size: nat, need: nat)
    requires CanDo(blocks, Alloc(size)) && need == size + KERNEL_MALLOC_HEADER_SIZE
    ensures var k := FirstFit(blocks, need);
      && k < |blocks| && TakesWell(blocks[k], need)
      && Do(blocks, Alloc(size)) == Allocated(blocks, k, need) && Subject(blocks, Alloc(size)).addr == blocks[k].addr
  {
  }

  /** A request that fits and leaves nothing or a header. */
  method KmallocFits(heap: Heap, size: nat) returns (ptr: int)
    requires heap.Valid() && size + KERNEL_MALLOC_HEADER_SIZE <= MAX_WORD && CanDo(heap.blocks, Alloc(size))
    modifies heap
    ensures heap.Valid() && heap.blocks == Do(old(heap.blocks), Alloc(size))
    ensures ptr == Subject(old(heap.blocks), Alloc(size)).addr + KERNEL_MALLOC_SIZE_SIZE
  {
    NoWrap(size);
    CanTake(heap.blocks, size, AllocSize(size));
    var outside;
    ptr, outside := heap.Kmalloc(size);
  }

  /** The whole heap given out in one piece and given back: the block is lost, and nothing can be given out again. */
  method FullHeapLost(heap_start: int) returns (heap: Heap)
    requires 0 < heap_start && heap_start + KERNEL_HEAP_SIZE < END_OF_HEAP
    ensures fresh(heap) && !heap.Valid() && heap.first_free == START_OF_HEAP
    ensures heap.blocks == [Block(heap_start, KERNEL_HEAP_SIZE, true)]
  {
    heap := new Heap(heap_start);
    ghost var whole := Block(heap_start, KERNEL_HEAP_SIZE, true);
    FullRun(heap_start);
    var ptr := KmallocFits(heap, KERNEL_HEAP_SIZE - 8);
    FreedWhole(whole.(free := false));
    NoneFree(heap.mem, heap.first_free, heap.blocks);
    var outside := heap.Kfree(ptr, 0);
  }

  lemma FreedWhole(b: Block)
    requires !b.free
    ensures Freed([b], 0) == [b.(free := true)] && FreeOf([b]) == [] && FreeOf([b][1..]) == [] && FreeOf([b][..0]) == []
  {
    assert [b][..0] == [] && [b][1..] == [];
  }

  /** A block of 16 bytes, as path resolution asks for, given back with a live one behind it: the header of 24 bytes
      does not fit. */
  method ShortBlockLost(heap_start: int) returns (heap: Heap)
    requires 0 < heap_start && heap_start + KERNEL_HEAP_SIZE < END_OF_HEAP
    ensures fresh(heap) && !heap.Valid()
    ensures heap.blocks == [Block(heap_start, 16, true), Block(heap_start + 16, 16, false),
                            Block(heap_start + 32, KERNEL_HEAP_SIZE - 32, true)]
  {
    heap := new Heap(heap_start);
    ghost var states := ShortRun(heap_start);
    var first := TwoCalls(heap, states);
    ShortFreed(states[2][0], states[2][1], states[2][2]);
    var outside := heap.Kfree(first, 0);
  }

  method TwoCalls(heap: Heap, ghost states: seq<seq<Block>>) returns (first: int)
    requires heap.Valid() && (var steps := TwoSteps(states); steps) && heap.blocks == states[0]
    modifies heap
    ensures heap.Valid() && heap.blocks == states[2] && first == states[2][0].addr + KERNEL_MALLOC_SIZE_SIZE
  {
    first := KmallocFits(heap, 8);
    var second := KmallocFits(heap, 8);
  }

  lemma ShortFreed(a: Block, b: Block, c: Block)
    requires !a.free && a.size < FREE_HEADER_SIZE && !b.free
    ensures !Freeable([a, b, c], 0) && Freed([a, b, c], 0) == [a.(free := true), b, c]
  {
    assert [a, b, c][..0] == [] && [a, b, c][1..] == [b, c];
  }

  /** A block given back behind the only free one: the list starts at the wrong end. */
  method LowerFreeLost(heap_start: int) returns (heap: Heap)
    requires 0 < heap_start && heap_start + KERNEL_HEAP_SIZE < END_OF_HEAP
    ensures fresh(heap) && !heap.Valid()
    ensures heap.blocks == [Block(heap_start, 24, true), Block(heap_start + 24, 24, true),
                            Block(heap_start + 48, FREE_LIST_LEFT, false)]
  {
    heap := new Heap(heap_start);
    ghost var states := LowerFreeRun(heap_start);
    var second := FourCalls(heap, states);
    BehindOnlyFree(states[4][0], states[4][1], states[4][2]);
    var outside := heap.Kfree(second, 1);
  }

  /** The calls of `LowerFreeRun`. */
  method FourCalls(heap: Heap, ghost states: seq<seq<Block>>) returns (second: int)
    requires heap.Valid() && (var steps := FourSteps(states); steps) && heap.blocks == states[0]
    modifies heap
    ensures heap.Valid() && heap.blocks == states[4]
    ensures second == states[4][1].addr + KERNEL_MALLOC_SIZE_SIZE
  {
    var first := KmallocFits(heap, 16);
    second := KmallocFits(heap, 16);
    KfreeFits(heap, first, 0);
    var third := KmallocFits(heap, FREE_LIST_LEFT - 8);
  }

  /** A live block given back with a free one above it. */
  method KfreeFits(heap: Heap, ptr: int, ghost k: nat)
    requires heap.Valid() && CanDo(heap.blocks, Free(k)) && ptr != 0
    requires ptr == Subject(heap.blocks, Free(k)).addr + KERNEL_MALLOC_SIZE_SIZE
    modifies heap
    ensures heap.Valid() && heap.blocks == Do(old(heap.blocks), Free(k))
  {
    var outside := heap.Kfree(ptr, k);
  }

  lemma BehindOnlyFree(a: Block, b: Block, c: Block)
    requires a.free && !b.free && !c.free
    ensures var blocks := [a, b, c];
      && FreeOf(blocks[..1]) == [a] && FreeOf(blocks[2..]) == [] && FreeOf(blocks) != []
      && Freed(blocks, 1) == [a, b.(free := true), c]
  {
    assert [a, b, c][..1] == [a] && [a, b, c][2..] == [c] && [c][1..] == [] && [a][1..] == [];
  }
}
