/** The parts of `kmalloc` (src/lib/kmalloc.c) on the bytes of the heap: the walk and the relinking. */
module HeapAllocation {
  import opened LittleEndian
  import opened HeapMemory
  import opened HeapBlocks
  import opened HeapList

  /** A neighbour in the free list, if there is one, has a header entirely before or behind the block. */
  ghost predicate Around(m: Bytes, lo: int, hi: int, prev: int, next: int) {
    && (prev != START_OF_HEAP ==> m.Has(prev, FREE_HEADER_SIZE) && prev + FREE_HEADER_SIZE <= lo)
    && (next != END_OF_HEAP ==> m.Has(next, FREE_HEADER_SIZE) && hi <= next)
  }

  ghost predicate CanRelink(m: Bytes, block: int, h: Header, alloc_size: nat) {
    && 0 < m.base && m.base + |m.data| < END_OF_HEAP
    && 0 <= h.size && m.Has(block, h.size)
    && (h.size == alloc_size || h.size >= alloc_size + FREE_HEADER_SIZE)
    && 0 <= h.prev && 0 <= h.next <= END_OF_HEAP
    && Around(m, block, block + h.size, h.prev, h.next)
  }

  /** The neighbours are there, and the heap, though perhaps not the block, has room for the header of what is left. */
  ghost predicate CanStore(m: Bytes, block: int, h: Header, alloc_size: nat) {
    && 0 < m.base && m.base + |m.data| < END_OF_HEAP
    && alloc_size <= h.size && m.Has(block, h.size)
    && (h.size != alloc_size ==> m.Has(block + alloc_size, FREE_HEADER_SIZE))
    && 0 <= h.prev && 0 <= h.next <= END_OF_HEAP
    && Around(m, block, block + h.size, h.prev, h.next)
  }

  ghost predicate NearBlock(m: Bytes, m': Bytes, block: int, h: Header) {
    OnlyNear(m, m', block, block + h.size, h.prev, h.next)
  }

  /** The block with header `h` is out of the list, or what is left of it has taken its place. */
  ghost predicate Relinked(m: Bytes, m': Bytes, block: int, h: Header, alloc_size: nat)
    requires CanRelink(m, block, h, alloc_size)
  {
    var whole, rest := h.size == alloc_size, block + alloc_size;
    var near := NearBlock(m, m', block, h);
    && near
    && (!whole ==> HeaderAt(m', rest) == Header(h.prev, h.next, h.size - alloc_size))
    && (h.prev != START_OF_HEAP ==>
          HeaderAt(m', h.prev) == HeaderAt(m, h.prev).(next := if whole then h.next else rest))
    && (h.next != END_OF_HEAP ==> HeaderAt(m', h.next) == HeaderAt(m, h.next).(prev := if whole then h.prev else rest))
  }

  method RelinkOnly(m: Bytes, block: int, h: Header, alloc_size: nat) returns (m': Bytes)
    requires CanStore(m, block, h, alloc_size)
    requires h.prev == START_OF_HEAP && h.next == END_OF_HEAP && h.size != alloc_size
    ensures CanRelink(m, block, h, alloc_size) ==> Relinked(m, m', block, h, alloc_size)
    ensures m'.base == m.base && |m'.data| == |m.data|
  {
    var free_block := block + alloc_size;
    m' := SetPrev(m, free_block, START_OF_HEAP);
    m' := SetNext(m', free_block, END_OF_HEAP);
    m' := SetSize(m', free_block, h.size - alloc_size);
  }

  method RelinkFirst(m: Bytes, block: int, h: Header, alloc_size: nat) returns (m': Bytes)
    requires CanStore(m, block, h, alloc_size) && h.prev == START_OF_HEAP && h.next != END_OF_HEAP
    ensures CanRelink(m, block, h, alloc_size) ==> Relinked(m, m', block, h, alloc_size)
    ensures m'.base == m.base && |m'.data| == |m.data|
  {
    var free_block := block + alloc_size;
    if h.size - alloc_size == 0 {
      m' := SetPrev(m, h.next, START_OF_HEAP);
    } else {
      m' := SplitFirst(m, block, h, free_block, h.size - alloc_size);
    }
  }

  method SplitFirst(m: Bytes, ghost block: int, h: Header, free_block: int, left: nat) returns (m': Bytes)
    requires 0 < m.base && m.base + |m.data| < END_OF_HEAP && left <= MAX_WORD
    requires m.Has(free_block, FREE_HEADER_SIZE) && m.Has(h.next, FREE_HEADER_SIZE)
    ensures m'.base == m.base && |m'.data| == |m.data|
    ensures block <= free_block && free_block + FREE_HEADER_SIZE <= block + h.size <= h.next ==>
      && (var near := NearBlock(m, m', block, h); near)
      && HeaderAt(m', free_block) == Header(START_OF_HEAP, h.next, left)
      && HeaderAt(m', h.next) == HeaderAt(m, h.next).(prev := free_block)
  {
    m' := SetNext(m, free_block, h.next);
    m' := SetPrev(m', h.next, free_block);
    m' := SetSize(m', free_block, left);
    m' := SetPrev(m', free_block, START_OF_HEAP);
  }

  method RelinkLast(m: Bytes, block: int, h: Header, alloc_size: nat) returns (m': Bytes)
    requires CanStore(m, block, h, alloc_size) && h.prev != START_OF_HEAP && h.next == END_OF_HEAP
    ensures CanRelink(m, block, h, alloc_size) ==> Relinked(m, m', block, h, alloc_size)
    ensures m'.base == m.base && |m'.data| == |m.data|
  {
    var free_block := block + alloc_size;
    if h.size - alloc_size == 0 {
      m' := SetNext(m, h.prev, END_OF_HEAP);
    } else {
      m' := SplitLast(m, block, h, free_block, h.size - alloc_size);
    }
  }

  method SplitLast(m: Bytes, ghost block: int, h: Header, free_block: int, left: nat) returns (m': Bytes)
    requires 0 < m.base && m.base + |m.data| < END_OF_HEAP && left <= MAX_WORD
    requires m.Has(free_block, FREE_HEADER_SIZE) && m.Has(h.prev, FREE_HEADER_SIZE)
    ensures m'.base == m.base && |m'.data| == |m.data|
    ensures h.prev + FREE_HEADER_SIZE <= block <= free_block && free_block + FREE_HEADER_SIZE <= block + h.size ==>
      && (var near := NearBlock(m, m', block, h); near)
      && HeaderAt(m', free_block) == Header(h.prev, END_OF_HEAP, left)
      && HeaderAt(m', h.prev) == HeaderAt(m, h.prev).(next := free_block)
  {
    m' := SetPrev(m, free_block, h.prev);
    m' := SetNext(m', h.prev, free_block);
    m' := SetSize(m', free_block, left);
    m' := SetNext(m', free_block, END_OF_HEAP);
  }

  method RelinkMiddle(m: Bytes, block: int, h: Header, alloc_size: nat) returns (m': Bytes)
    requires CanStore(m, block, h, alloc_size) && h.prev != START_OF_HEAP && h.next != END_OF_HEAP
    ensures CanRelink(m, block, h, alloc_size) ==> Relinked(m, m', block, h, alloc_size)
    ensures m'.base == m.base && |m'.data| == |m.data|
  {
    if h.size - alloc_size == 0 {
      m' := SetNext(m, h.prev, h.next);
      m' := SetPrev(m', h.next, h.prev);
    } else {
      m' := SplitMiddle(m, block, h, alloc_size);
    }
  }

  method SplitMiddle(m: Bytes, block: int, h: Header, alloc_size: nat) returns (m': Bytes)
    requires CanStore(m, block, h, alloc_size) && h.prev != START_OF_HEAP && h.next != END_OF_HEAP
    requires h.size != alloc_size
    ensures CanRelink(m, block, h, alloc_size) ==> var relinked := Relinked(m, m', block, h, alloc_size); relinked
    ensures m'.base == m.base && |m'.data| == |m.data|
  {
    var free_block := block + alloc_size;
    m' := LinkBefore(m, m, block, h, h.prev, free_block);
    m' := LinkBehind(m, m', block, h, h.next, free_block);
    ghost var m4 := m';
    m' := SetSize(m', free_block, h.size - alloc_size);
    if CanRelink(m, block, h, alloc_size) {
      NearStep(m, m4, m', block, h, free_block + 16);
      SplitRelinked(m, m', block, h, alloc_size, free_block);
    }
  }

  /** A header at `free_block` lies in the block, whose neighbours lie around it; nothing but the block and the links of
      the neighbours has changed from `m0` to `m`. */
  ghost predicate LinksNear(m0: Bytes, m: Bytes, block: int, h: Header, free_block: int) {
    && 0 < m.base && m.base + |m.data| < END_OF_HEAP && 0 <= h.size && m.Has(block, h.size)
    && h.prev != START_OF_HEAP && h.next != END_OF_HEAP && 0 <= h.prev && 0 <= h.next <= END_OF_HEAP
    && Around(m, block, block + h.size, h.prev, h.next)
    && block <= free_block && free_block + FREE_HEADER_SIZE <= block + h.size
    && (m0 == m || NearBlock(m0, m, block, h))
  }

  /** `free_block->prev = prev; free_block->prev->next = free_block`, perhaps after other stores nearby. */
  method LinkBefore(ghost m0: Bytes, m: Bytes, ghost block: int, ghost h: Header, prev: int, free_block: int)
    returns (m': Bytes)
    requires 0 < m.base && m.base + |m.data| < END_OF_HEAP
    requires m.Has(free_block, FREE_HEADER_SIZE) && m.Has(prev, FREE_HEADER_SIZE) && prev == h.prev
    ensures m'.base == m.base && |m'.data| == |m.data|
    ensures LinksNear(m0, m, block, h, free_block) ==>
      && (var near := NearBlock(m0, m', block, h); near)
      && HeaderAt(m', free_block) == HeaderAt(m, free_block).(prev := h.prev)
      && HeaderAt(m', h.prev) == HeaderAt(m, h.prev).(next := free_block)
      && HeaderAt(m', h.next) == HeaderAt(m, h.next)
  {
    m' := SetPrev(m, free_block, prev);
    ghost var m1 := m';
    m' := SetNext(m', prev, free_block);
    if LinksNear(m0, m, block, h, free_block) {
      NearStep(m0, m, m1, block, h, free_block);
      NearStep(m0, m1, m', block, h, h.prev + 8);
    }
  }

  /** `free_block->next = next; free_block->next->prev = free_block`, after other stores nearby. */
  method LinkBehind(ghost m0: Bytes, m: Bytes, ghost block: int, ghost h: Header, next: int, free_block: int)
    returns (m': Bytes)
    requires 0 < m.base && m.base + |m.data| < END_OF_HEAP
    requires m.Has(free_block, FREE_HEADER_SIZE) && m.Has(next, FREE_HEADER_SIZE) && next == h.next
    ensures m'.base == m.base && |m'.data| == |m.data|
    ensures LinksNear(m0, m, block, h, free_block) ==>
      && (var near := NearBlock(m0, m', block, h); near)
      && HeaderAt(m', free_block) == HeaderAt(m, free_block).(next := h.next)
      && HeaderAt(m', h.next) == HeaderAt(m, h.next).(prev := free_block)
      && HeaderAt(m', h.prev) == HeaderAt(m, h.prev)
  {
    m' := SetNext(m, free_block, next);
    ghost var m1 := m';
    m' := SetPrev(m', next, free_block);
    if LinksNear(m0, m, block, h, free_block) {
      NearStep(m0, m, m1, block, h, free_block + 8);
      NearStep(m0, m1, m', block, h, h.next);
    }
  }

  lemma SplitRelinked(m: Bytes, m': Bytes, block: int, h: Header, alloc_size: nat, rest: int)
    requires CanRelink(m, block, h, alloc_size) && h.size != alloc_size && rest == block + alloc_size
    requires var near := NearBlock(m, m', block, h); near
    requires m'.base == m.base && |m'.data| == |m.data|
    requires HeaderAt(m', rest) == Header(h.prev, h.next, h.size - alloc_size)
    requires h.prev != START_OF_HEAP ==> HeaderAt(m', h.prev) == HeaderAt(m, h.prev).(next := rest)
    requires h.next != END_OF_HEAP ==> HeaderAt(m', h.next) == HeaderAt(m, h.next).(prev := rest)
    ensures var relinked := Relinked(m, m', block, h, alloc_size); relinked
  {
  }

  lemma NearStep(m: Bytes, m1: Bytes, m2: Bytes, block: int, h: Header, w: int)
    requires m1 == m || NearBlock(m, m1, block, h)
    requires OnlyWord(m1, m2, w)
    requires
      || block <= w <= block + h.size - 8
      || (h.prev != START_OF_HEAP && w == h.prev + 8)
      || (h.next != END_OF_HEAP && w == h.next)
    ensures var near := NearBlock(m, m2, block, h); near
  {
  }

  /** `*header = v`. */
  method StoreWord(m: Bytes, a: int, v: nat) returns (m': Bytes)
    requires m.Has(a, 8) && v <= MAX_WORD
    ensures OnlyWord(m, m', a) && m'.Load(a) == v
  {
    StoreLoad(m, a, v);
    m' := m.Store(a, v);
  }

  function FirstThen(first: int, block: int, h: Header, alloc_size: nat): int {
    if h.prev != START_OF_HEAP then first
    else if h.size != alloc_size then block + alloc_size
    else if h.next == END_OF_HEAP then START_OF_HEAP else h.next
  }

  /** The relinking of `kmalloc`: the only free block, the first, the last, or one between others. */
  method Relink(m: Bytes, first: int, block: int, prev_free_block: Header, alloc_size: nat)
    returns (m': Bytes, first_free: int)
    requires var can := CanStore(m, block, prev_free_block, alloc_size); can
    ensures var h := prev_free_block;
      CanRelink(m, block, h, alloc_size) ==> var relinked := Relinked(m, m', block, h, alloc_size); relinked
    ensures m'.base == m.base && |m'.data| == |m.data|
    ensures first_free == FirstThen(first, block, prev_free_block, alloc_size)
  {
    var h, free_block := prev_free_block, block + alloc_size;
    m', first_free := m, first;
    if h.prev == START_OF_HEAP && h.next == END_OF_HEAP {
      if h.size - alloc_size == 0 {
        first_free := 0;
      } else {
        m' := RelinkOnly(m, block, h, alloc_size);
        first_free := free_block;
      }
    } else if h.prev == START_OF_HEAP {
      m' := RelinkFirst(m, block, h, alloc_size);
      first_free := if h.size - alloc_size == 0 then h.next else free_block;
    } else if h.next == END_OF_HEAP {
      m' := RelinkLast(m, block, h, alloc_size);
    } else {
      m' := RelinkMiddle(m, block, h, alloc_size);
    }
  }

  /** `free_block->next`, `free_block->prev` and `free_block->size`, read on free block `i`. */
  method ReadNext(m: Bytes, ghost first: int, ghost free: seq<Block>, ghost i: nat, free_block: int) returns (next: int)
    requires var linked := Linked(m, first, free); linked && i < |free| && free_block == free[i].addr
    ensures next == if i + 1 < |free| then free[i + 1].addr else END_OF_HEAP
  {
    WalkStep(m, first, free, i);
    next := m.Load(free_block + 8);
  }

  method ReadPrev(m: Bytes, ghost first: int, ghost free: seq<Block>, ghost i: nat, free_block: int) returns (prev: int)
    requires var linked := Linked(m, first, free); linked && i < |free| && free_block == free[i].addr
    ensures prev == if i > 0 then free[i - 1].addr else START_OF_HEAP
  {
    WalkStep(m, first, free, i);
    prev := m.Load(free_block);
  }

  method ReadSize(m: Bytes, ghost first: int, ghost free: seq<Block>, ghost i: nat, free_block: int) returns (size: int)
    requires var linked := Linked(m, first, free); linked && i < |free| && free_block == free[i].addr
    ensures size == free[i].size
  {
    WalkStep(m, first, free, i);
    size := m.Load(free_block + 16);
  }

  /** The walk of `kmalloc`, which reads `free_block->size` and follows `free_block->next`.  It has no end test: if
      nothing fits, it takes the end mark for a block and reads outside the heap. */
  method Walk(m: Bytes, first: int, ghost blocks: seq<Block>, alloc_size: nat) returns (free_block: int, outside: bool)
    requires var ok := HeapOk(m, first, blocks); ok && first != 0
    ensures outside <==> FirstFit(blocks, alloc_size) == |blocks|
    ensures outside ==> free_block == END_OF_HEAP
    ensures !outside ==> free_block == blocks[FirstFit(blocks, alloc_size)].addr
  {
    ghost var free := FreeOf(blocks);
    ghost var j := FitAmongFree(blocks, alloc_size);
    FirstFree(m, first, blocks);
    free_block, outside := WalkFrom(m, first, free, alloc_size, j);
  }

  method WalkFrom(m: Bytes, first: int, ghost free: seq<Block>, alloc_size: nat, ghost j: nat)
    returns (free_block: int, outside: bool)
    requires var linked := Linked(m, first, free); linked && j <= |free| && free != [] && first == free[0].addr
    requires j < |free| ==> free[j].size >= alloc_size
    requires (forall i | 0 <= i < j :: free[i].size < alloc_size) && m.base + |m.data| < END_OF_HEAP
    ensures outside <==> j == |free|
    ensures free_block == if j == |free| then END_OF_HEAP else free[j].addr
  {
    free_block := first;
    ghost var i := 0;
    HeaderThere(m, first, free, 0);
    while true
      invariant i <= j && free_block == if i == |free| then END_OF_HEAP else free[i].addr
      invariant i < |free| ==> m.Has(free_block, FREE_HEADER_SIZE)
      decreases j - i
    {
      if !m.Has(free_block, FREE_HEADER_SIZE) {
        return free_block, true;
      }
      var size := ReadSize(m, first, free, i, free_block);
      if size >= alloc_size {
        return free_block, false;
      }
      free_block := ReadNext(m, first, free, i, free_block);
      i := i + 1;
      HeaderThere(m, first, free, i);
    }
  }

  lemma HeaderThere(m: Bytes, first: int, free: seq<Block>, i: nat)
    requires var linked := Linked(m, first, free); linked
    ensures i < |free| ==> m.Has(free[i].addr, FREE_HEADER_SIZE)
  {
    if i < |free| {
      assert LinkedAt(m, free[i], free, i);
    }
  }

  /** `prev_free_block = *free_block`. */
  method BeforeTake(m: Bytes, first: int, ghost blocks: seq<Block>, block: int, ghost k: nat, ghost need: nat)
    returns (h: Header)
    requires var ok := HeapOk(m, first, blocks); ok && k < |blocks| && blocks[k].free && block == blocks[k].addr
    requires need <= blocks[k].size
    ensures h == HeaderOf(blocks, k) && m.Has(block, 8)
    ensures h.size == need || m.Has(block + need, FREE_HEADER_SIZE) ==> var can := CanStore(m, block, h, need); can
    ensures SplitsWell(blocks[k], need) ==> var can := CanRelink(m, block, h, need); can && m.Has(block, h.size)
  {
    ghost var a, b, c := blocks[..k], blocks[k], blocks[k + 1..];
    assert blocks == a + [b] + c;
    HeaderInParts(m, first, a, b, c, m.base + Total(a), m.base + Total(a) + b.size);
    h := HeaderAt(m, block);
  }

  /** The header of a free block names its neighbours in the list. */
  function HeaderOf(blocks: seq<Block>, k: nat): Header
    requires k < |blocks|
  {
    Header(LastAddr(FreeOf(blocks[..k])), NextAddr(FreeOf(blocks[k + 1..])), blocks[k].size)
  }

  lemma AfterTake(m: Bytes, first: int, blocks: seq<Block>, k: nat, need: nat, m1: Bytes, m2: Bytes, first': int)
    requires var ok := HeapOk(m, first, blocks); ok && k < |blocks| && blocks[k].free
    requires KERNEL_MALLOC_HEADER_SIZE <= need <= blocks[k].size && SplitsWell(blocks[k], need)
    requires var block, h := blocks[k].addr, HeaderOf(blocks, k);
      var relinked := CanRelink(m, block, h, need) && Relinked(m, m1, block, h, need); relinked
    requires first' == FirstThen(first, blocks[k].addr, HeaderOf(blocks, k), need)
    requires m1.Has(blocks[k].addr, 8) && OnlyWord(m1, m2, blocks[k].addr)
    requires m2.Load(blocks[k].addr) == need - KERNEL_MALLOC_HEADER_SIZE
    ensures var ok := HeapOk(m2, first', Allocated(blocks, k, need)); ok
    ensures var kept := LiveKept(m, m2, blocks); kept
  {
    var a, b, c := blocks[..k], blocks[k], blocks[k + 1..];
    assert blocks == a + [b] + c;
    var lo := m.base + Total(a);
    HeaderInParts(m, first, a, b, c, lo, lo + b.size);
    AllocStep(m, first, a, b, c, need, m1, m2, lo, lo + b.size);
    FirstAfter(m, first, a, b, c, need);
    LiveParts(m, m2, a, b, c);
  }

  lemma FirstFree(m: Bytes, first: int, blocks: seq<Block>)
    requires var ok := HeapOk(m, first, blocks); ok && first != 0
    ensures FreeOf(blocks) != [] && first == FreeOf(blocks)[0].addr && m.base + |m.data| < END_OF_HEAP
    ensures var linked := Linked(m, first, FreeOf(blocks)); linked
    ensures m.Has(first, FREE_HEADER_SIZE)
  {
    HeaderThere(m, first, FreeOf(blocks), 0);
  }

  /** The first block that fits is the first free block that fits, and if none does no free block does. */
  lemma {:induction false} FitAmongFree(blocks: seq<Block>, need: int) returns (j: nat)
    ensures j <= |FreeOf(blocks)| && (j < |FreeOf(blocks)| <==> FirstFit(blocks, need) < |blocks|)
    ensures j < |FreeOf(blocks)| ==>
      FreeOf(blocks)[j] == blocks[FirstFit(blocks, need)] && FreeOf(blocks)[j].size >= need
    ensures forall i | 0 <= i < j :: FreeOf(blocks)[i].size < need
  {
    if blocks == [] || (blocks[0].free && blocks[0].size >= need) {
      j := 0;
    } else {
      j := FitAmongFree(blocks[1..], need);
      if blocks[0].free {
        j := j + 1;
      }
    }
  }

  /** What the walk reads at free block `i`. */
  lemma WalkStep(m: Bytes, first: int, free: seq<Block>, i: nat)
    requires var linked := Linked(m, first, free); linked && i < |free|
    ensures m.Has(free[i].addr, FREE_HEADER_SIZE) && m.Load(free[i].addr + 16) == free[i].size
    ensures m.Load(free[i].addr + 8) == if i + 1 < |free| then free[i + 1].addr else END_OF_HEAP
    ensures m.Load(free[i].addr) == if i > 0 then free[i - 1].addr else START_OF_HEAP
  {
    assert LinkedAt(m, free[i], free, i);
  }

  lemma HeaderInParts(m: Bytes, first: int, a: seq<Block>, b: Block, c: seq<Block>, lo: int, hi: int)
    requires var ok := HeapOk(m, first, a + [b] + c); ok && b.free && lo == m.base + Total(a) && hi == lo + b.size
    ensures b.addr == lo && m.Has(lo, FREE_HEADER_SIZE) && hi <= m.base + |m.data| && b.size >= FREE_HEADER_SIZE
    ensures HeaderAt(m, b.addr) == Header(LastAddr(FreeOf(a)), NextAddr(FreeOf(c)), b.size)
    ensures Around(m, lo, hi, LastAddr(FreeOf(a)), NextAddr(FreeOf(c)))
    ensures 0 <= LastAddr(FreeOf(a)) && 0 <= NextAddr(FreeOf(c)) <= END_OF_HEAP
  {
    var end := m.base + KERNEL_HEAP_SIZE;
    Single(b);
    FreeThree(a, [b], c);
    TilesInParts(a, [b], c, m.base, lo, hi, end);
    OneLinked(m, first, FreeOf(a), b, FreeOf(c));
    Neighbours(a, c, m.base, lo, hi, end);
    BlocksApart(a, m.base, lo);
    BlocksApart(c, hi, end);
  }

  lemma Single(b: Block)
    ensures Total([b]) == b.size && FreeOf([b]) == if b.free then [b] else []
  {
    assert [b][1..] == [];
    assert [b] + FreeOf([]) == [b] && [] + FreeOf([]) == [];
  }

  lemma OneLinked(m: Bytes, first: int, p: seq<Block>, b: Block, s: seq<Block>)
    requires var linked := Linked(m, first, p + [b] + s); linked
    ensures m.Has(b.addr, FREE_HEADER_SIZE) && HeaderAt(m, b.addr) == Header(LastAddr(p), NextAddr(s), b.size)
  {
    ToParts(m, first, p, [b], s);
    assert LinkedAt(m, [b][0], p + [b] + s, |p| + 0);
    LinksOfOne(p, b, s, HeaderAt(m, b.addr));
  }

  /** A word stored at the start of the block touches no header behind it. */
  lemma HeaderKept(m1: Bytes, m2: Bytes, w: int, o: int)
    requires OnlyWord(m1, m2, w) && m1.Has(o, FREE_HEADER_SIZE) && (o + FREE_HEADER_SIZE <= w || w + 8 <= o)
    ensures m2.Has(o, FREE_HEADER_SIZE) && HeaderAt(m2, o) == HeaderAt(m1, o)
  {
    LoadSame(m1, m2, o);
    LoadSame(m1, m2, o + 8);
    LoadSame(m1, m2, o + 16);
  }

  lemma CarvedFree(b: Block, need: int)
    requires b.free
    ensures FreeOf(Carved(b, need)) == Rest(b, need)
  {
    var live, rest := Block(b.addr, need, false), Block(b.addr + need, b.size - need, true);
    assert [live][1..] == [] && [rest][1..] == [];
    assert FreeOf([live]) == [] && FreeOf([rest]) == [rest] + FreeOf([]);
    FreeConcat([live], [rest]);
  }

  /** What is left of the block once its size word is stored. */
  function Rest(b: Block, need: int): seq<Block> {
    if b.size == need then [] else [Block(b.addr + need, b.size - need, true)]
  }

  /** The size word stored, the headers around the block are still what they were. */
  lemma KeptAround(m: Bytes, b: int, h: Header, need: nat, m1: Bytes, m2: Bytes)
    requires CanRelink(m, b, h, need) && need >= KERNEL_MALLOC_HEADER_SIZE
    requires Relinked(m, m1, b, h, need) && OnlyWord(m1, m2, b)
    ensures var relinked := Relinked(m, m2, b, h, need); relinked && m2.base == m.base && |m2.data| == |m.data|
  {
    NearStep(m, m1, m2, b, h, b);
    if h.prev != START_OF_HEAP {
      HeaderKept(m1, m2, b, h.prev);
    }
    if h.next != END_OF_HEAP {
      HeaderKept(m1, m2, b, h.next);
    }
    if h.size != need {
      HeaderKept(m1, m2, b, b + need);
    }
  }

  /** After the size word is stored, the rest of the block, if any, is linked between the neighbours. */
  lemma CarvedSpliced(m: Bytes, p: seq<Block>, b: Block, s: seq<Block>, h: Header, need: nat, m1: Bytes, m2: Bytes)
    requires h == Header(LastAddr(p), NextAddr(s), b.size) && CanRelink(m, b.addr, h, need)
    requires need >= KERNEL_MALLOC_HEADER_SIZE
    requires var relinked := Relinked(m, m1, b.addr, h, need); relinked
    requires OnlyWord(m1, m2, b.addr)
    requires (LastAddr(p) == START_OF_HEAP <==> p == []) && (NextAddr(s) == END_OF_HEAP <==> s == [])
    ensures var spliced := Spliced(m, m2, b.addr, b.addr + b.size, p, Rest(b, need), s); spliced
  {
    KeptAround(m, b.addr, h, need, m1, m2);
    if b.size == need {
      WholeSpliced(m, m2, p, b, s, h, need);
    } else {
      RestSpliced(m, m2, p, b, s, h, need, b.addr + need);
    }
  }

  lemma WholeSpliced(m: Bytes, m2: Bytes, p: seq<Block>, b: Block, s: seq<Block>, h: Header, need: nat)
    requires h == Header(LastAddr(p), NextAddr(s), b.size) && CanRelink(m, b.addr, h, need) && b.size == need
    requires m2.base == m.base && |m2.data| == |m.data| && var relinked := Relinked(m, m2, b.addr, h, need); relinked
    requires (LastAddr(p) == START_OF_HEAP <==> p == []) && (NextAddr(s) == END_OF_HEAP <==> s == [])
    ensures var spliced := Spliced(m, m2, b.addr, b.addr + b.size, p, Rest(b, need), s); spliced
  {
    SplicedFrom(m, m2, p, b, s, h, Rest(b, need), h.next, h.prev);
  }

  lemma RestSpliced(m: Bytes, m2: Bytes, p: seq<Block>, b: Block, s: seq<Block>, h: Header, need: nat, rest: int)
    requires h == Header(LastAddr(p), NextAddr(s), b.size) && CanRelink(m, b.addr, h, need) && b.size != need
    requires m2.base == m.base && |m2.data| == |m.data| && rest == b.addr + need
    requires var relinked := Relinked(m, m2, b.addr, h, need); relinked
    requires (LastAddr(p) == START_OF_HEAP <==> p == []) && (NextAddr(s) == END_OF_HEAP <==> s == [])
    ensures var spliced := Spliced(m, m2, b.addr, b.addr + b.size, p, Rest(b, need), s); spliced
  {
    SplicedFrom(m, m2, p, b, s, h, Rest(b, need), rest, rest);
  }

  lemma SplicedFrom(m: Bytes, m2: Bytes, p: seq<Block>, b: Block, s: seq<Block>, h: Header, n: seq<Block>,
          next: int, prev: int)
    requires h == Header(LastAddr(p), NextAddr(s), b.size) && |n| <= 1
    requires next == (if n == [] then h.next else n[0].addr) && prev == (if n == [] then h.prev else n[0].addr)
    requires var near := NearBlock(m, m2, b.addr, h); near
    requires m2.base == m.base && |m2.data| == |m.data|
    requires n != [] ==>
      m.Has(n[0].addr, FREE_HEADER_SIZE) && HeaderAt(m2, n[0].addr) == Header(h.prev, h.next, n[0].size)
    requires p != [] ==> m.Has(h.prev, FREE_HEADER_SIZE) && HeaderAt(m2, h.prev) == HeaderAt(m, h.prev).(next := next)
    requires s != [] ==> m.Has(h.next, FREE_HEADER_SIZE) && HeaderAt(m2, h.next) == HeaderAt(m, h.next).(prev := prev)
    ensures Spliced(m, m2, b.addr, b.addr + b.size, p, n, s)
  {
    assert NextAddr(n + s) == next by { if n == [] { assert n + s == s; } }
    assert LastAddr(p + n) == prev by { if n == [] { assert p + n == p; } }
  }

  lemma CarvedSized(b: Block, need: int, m: Bytes)
    requires m.Has(b.addr, 8) && m.Load(b.addr) == need - KERNEL_MALLOC_HEADER_SIZE
    ensures var sized := Sized(m, Carved(b, need)); sized
  {
  }

  /** One step of `kmalloc`: the heap represents the blocks with the first fit given out. */
  lemma AllocStep(m: Bytes, first: int, a: seq<Block>, b: Block, c: seq<Block>, need: nat, m1: Bytes, m2: Bytes,
          lo: int, hi: int)
    requires var ok := HeapOk(m, first, a + [b] + c); ok
    requires b.free && lo == m.base + Total(a) && hi == lo + b.size && b.addr == lo
    requires KERNEL_MALLOC_HEADER_SIZE <= need <= b.size && SplitsWell(b, need)
    requires var h := Header(LastAddr(FreeOf(a)), NextAddr(FreeOf(c)), b.size);
      var relinked := CanRelink(m, lo, h, need) && Relinked(m, m1, lo, h, need); relinked
    requires m1.Has(lo, 8) && OnlyWord(m1, m2, lo) && m2.Load(lo) == need - KERNEL_MALLOC_HEADER_SIZE
    ensures var first' := FirstAddr(FreeOf(a) + FreeOf(Carved(b, need)) + FreeOf(c));
      var ok := HeapOk(m2, first', a + Carved(b, need) + c); ok
    ensures var kept := LiveKept(m, m2, a) && LiveKept(m, m2, c); kept
  {
    var y := Carved(b, need);
    var end := m.base + KERNEL_HEAP_SIZE;
    Single(b);
    TilesInParts(a, [b], c, m.base, lo, hi, end);
    Neighbours(a, c, m.base, lo, hi, end);
    CarvedFree(b, need);
    CarvedSpliced(m, FreeOf(a), b, FreeOf(c), Header(LastAddr(FreeOf(a)), NextAddr(FreeOf(c)), b.size), need, m1, m2);
    CarvedTilesIff(b, need, lo, hi);
    CarvedSized(b, need, m2);
    Exchange(m, first, a, [b], c, y, m2, lo, hi);
  }

  /** `first_free` follows. */
  lemma FirstAfter(m: Bytes, first: int, a: seq<Block>, b: Block, c: seq<Block>, need: nat)
    requires var ok := HeapOk(m, first, a + [b] + c); ok && b.free
    ensures var h := Header(LastAddr(FreeOf(a)), NextAddr(FreeOf(c)), b.size);
      FirstAddr(FreeOf(a) + FreeOf(Carved(b, need)) + FreeOf(c)) == FirstThen(first, b.addr, h, need)
  {
    var end := m.base + KERNEL_HEAP_SIZE;
    var lo, hi := TilesSplit(a, [b], c, m.base, end);
    Neighbours(a, c, m.base, lo, hi, end);
    CarvedFree(b, need);
    FreeThree(a, [b], c);
  }
}
