/** The parts of `kfree` (src/lib/kmalloc.c) on the bytes of the heap: the search and the insertion.  A block
    linked in takes the place of nothing, which is `Relinked` with nothing given out. */
module HeapRelease {
  import opened LittleEndian
  import opened HeapMemory
  import opened HeapBlocks
  import opened HeapList
  import opened HeapAllocation

  /** The search for the first free block above `ptr`; a list of one block is not searched. */
  method FindAbove(m: Bytes, first: int, ghost free: seq<Block>, ptr: int, ghost below: nat)
    returns (free_block: int, found: bool)
    requires var linked := Linked(m, first, free); linked && free != [] && first == free[0].addr && below <= |free|
    requires forall i | 0 <= i < |free| :: free[i].addr < END_OF_HEAP && (free[i].addr > ptr <==> i >= below)
    ensures found <==> below < |free| || |free| == 1
    ensures free_block == free[if below < |free| then below else |free| - 1].addr
  {
    free_block, found := first, false;
    ghost var i := 0;
    var next := ReadNext(m, first, free, 0, free_block);
    var prev := ReadPrev(m, first, free, 0, free_block);
    if next == END_OF_HEAP && prev == START_OF_HEAP {
      found := true;
    } else {
      while next != END_OF_HEAP
        invariant i < |free| && i <= below && free_block == free[i].addr && !found
        invariant next == if i + 1 < |free| then free[i + 1].addr else END_OF_HEAP
        decreases |free| - i
      {
        if free_block > ptr {
          found := true;
          break;
        }
        free_block := next;
        i := i + 1;
        next := ReadNext(m, first, free, i, free_block);
      }
      if !found && next == END_OF_HEAP && free_block > ptr {
        found := true;
      }
    }
  }

  // ---------- Linking a block in ----------

  ghost predicate LinkedIn(m: Bytes, m': Bytes, header: int, h: Header) {
    CanRelink(m, header, h, 0) && Relinked(m, m', header, h, 0)
  }

  method InsertFirst(m: Bytes, header: int, size: nat, free_block: int) returns (m': Bytes)
    requires m.Has(header, FREE_HEADER_SIZE) && m.Has(free_block, FREE_HEADER_SIZE)
    requires m.base + |m.data| < END_OF_HEAP && size <= MAX_WORD
    ensures m'.base == m.base
    ensures var h := Header(START_OF_HEAP, free_block, size);
      var linked := LinkedIn(m, m', header, h); CanRelink(m, header, h, 0) && size > 0 ==> linked
  {
    m' := SetPrev(m, header, START_OF_HEAP);
    m' := SetNext(m', header, free_block);
    m' := SetSize(m', header, size);
    m' := SetPrev(m', free_block, header);
  }

  /** `*free_block = tmp`, at the start of the block with header `h`. */
  method CopyHeader(m: Bytes, block: int, tmp: Header, ghost h: Header) returns (m': Bytes)
    requires CanRelink(m, block, h, 0) && h.size >= FREE_HEADER_SIZE
    requires 0 <= tmp.prev <= MAX_WORD && 0 <= tmp.next <= MAX_WORD && 0 <= tmp.size <= MAX_WORD
    ensures var near := NearBlock(m, m', block, h); near && m'.base == m.base && |m'.data| == |m.data|
    ensures HeaderAt(m', block) == tmp
    ensures h.next != END_OF_HEAP ==> HeaderAt(m', h.next) == HeaderAt(m, h.next)
  {
    m' := SetPrev(m, block, tmp.prev);
    ghost var m1 := m';
    m' := SetNext(m', block, tmp.next);
    ghost var m2 := m';
    m' := SetSize(m', block, tmp.size);
    NearStep(m, m, m1, block, h, block);
    NearStep(m, m1, m2, block, h, block + 8);
    NearStep(m, m2, m', block, h, block + 16);
  }

  /** The block grows over the free block directly behind it, whose header moves down. */
  method MergeFirst(m: Bytes, header: int, size: nat, free_block: int, ghost h: Header) returns (m': Bytes)
    requires CanRelink(m, header, h, 0) && free_block == header + size && size > 0
    requires m.Has(free_block, FREE_HEADER_SIZE)
    requires HeaderAt(m, free_block) == Header(START_OF_HEAP, h.next, h.size - size)
    requires h.prev == START_OF_HEAP && h.size >= size + FREE_HEADER_SIZE
    ensures var linked := LinkedIn(m, m', header, h); linked
  {
    var tmp := HeaderAt(m, free_block);
    var block := free_block - size;
    m' := CopyHeader(m, block, tmp.(size := tmp.size + size), h);
    var next := m'.Load(block + 8);
    assert next == HeaderAt(m', block).next;
    ghost var m1 := m';
    if next != END_OF_HEAP {
      m' := SetPrev(m', next, block);
      NearStep(m, m1, m', header, h, next);
    }
    SplitRelinked(m, m', header, h, 0, header);
  }

  method InsertMiddle(m: Bytes, header: int, size: nat, prev: int, free_block: int) returns (m': Bytes)
    requires m.Has(header, FREE_HEADER_SIZE) && m.Has(prev, FREE_HEADER_SIZE) && m.Has(free_block, FREE_HEADER_SIZE)
    requires 0 < m.base && m.base + |m.data| < END_OF_HEAP && 0 < size <= MAX_WORD
    ensures m'.base == m.base
    ensures CanRelink(m, header, Header(prev, free_block, size), 0) ==>
      var linked := LinkedIn(m, m', header, Header(prev, free_block, size)); linked
  {
    ghost var h := Header(prev, free_block, size);
    m' := SetSize(m, header, size);
    if CanRelink(m, header, h, 0) {
      NearStep(m, m, m', header, h, header + 16);
    }
    m' := LinkBehind(m, m', header, h, free_block, header);
    m' := LinkBefore(m, m', header, h, prev, header);
    if CanRelink(m, header, h, 0) {
      SplitRelinked(m, m', header, h, 0, header);
    }
  }

  /** Past the last free block.  Nothing is stored in `next`: it stays what the owner of the block left there. */
  method Append(m: Bytes, header: int, size: nat, free_block: int) returns (m': Bytes)
    requires m.Has(header, FREE_HEADER_SIZE) && m.Has(free_block, FREE_HEADER_SIZE)
    requires 0 < m.base && m.base + |m.data| < END_OF_HEAP && 0 < size <= MAX_WORD
    ensures m'.base == m.base && m'.Has(header, FREE_HEADER_SIZE)
    ensures CanRelink(m, header, Header(free_block, END_OF_HEAP, size), 0) ==>
      && HeaderAt(m', header).next == m.Load(header + 8)
      && var linked := LinkedIn(m, m', header, Header(free_block, END_OF_HEAP, size));
         m.Load(header + 8) == END_OF_HEAP ==> linked
  {
    ghost var h := Header(free_block, END_OF_HEAP, size);
    m' := SetNext(m, free_block, header);
    ghost var m1 := m';
    m' := SetPrev(m', header, free_block);
    ghost var m2 := m';
    m' := SetSize(m', header, size);
    if CanRelink(m, header, h, 0) {
      NearStep(m, m, m1, header, h, free_block + 8);
      NearStep(m, m1, m2, header, h, header);
      NearStep(m, m2, m', header, h, header + 16);
      assert HeaderAt(m1, header) == HeaderAt(m, header);
      if m.Load(header + 8) == END_OF_HEAP {
        SplitRelinked(m, m', header, h, 0, header);
      }
    }
  }

  // ---------- What the insertion means ----------

  /** The blocks `x` become one free block, linked in between its neighbours. */
  lemma FreeStep(m: Bytes, first: int, a: seq<Block>, x: seq<Block>, c: seq<Block>, y: Block, m': Bytes)
    requires var ok := HeapOk(m, first, a + x + c); ok
    requires y == Block(m.base + Total(a), Total(x), true) && y.size >= FREE_HEADER_SIZE
    requires var linked := LinkedIn(m, m', y.addr, Header(LastAddr(FreeOf(a)), NextAddr(FreeOf(c)), y.size)); linked
    ensures var ok := HeapOk(m', FirstAddr(FreeOf(a) + [y] + FreeOf(c)), a + [y] + c); ok
    ensures var kept := LiveKept(m, m', a + [y] + c); kept
  {
    var lo, hi, end := y.addr, y.End(), m.base + KERNEL_HEAP_SIZE;
    TilesInParts(a, x, c, m.base, lo, hi, end);
    Neighbours(a, c, m.base, lo, hi, end);
    Single(y);
    InsertedSpliced(m, m', FreeOf(a), y, FreeOf(c));
    OneTiles(y);
    OneSized(m', y);
    Exchange(m, first, a, x, c, [y], m', lo, hi);
    LiveParts(m, m', a, y, c);
  }

  lemma OneTiles(y: Block)
    requires y.size >= FREE_HEADER_SIZE
    ensures Tiles([y], y.addr, y.End())
  {
    assert [y][1..] == [];
  }

  lemma OneSized(m: Bytes, y: Block)
    requires y.free
    ensures var sized := Sized(m, [y]); sized
  {
  }

  lemma InsertedSpliced(m: Bytes, m': Bytes, p: seq<Block>, y: Block, s: seq<Block>)
    requires y.free && y.size > 0 && LinkedIn(m, m', y.addr, Header(LastAddr(p), NextAddr(s), y.size))
    requires (LastAddr(p) == START_OF_HEAP <==> p == []) && (NextAddr(s) == END_OF_HEAP <==> s == [])
    ensures var spliced := Spliced(m, m', y.addr, y.End(), p, [y], s); spliced
  {
    SplicedFrom(m, m', p, y, s, Header(LastAddr(p), NextAddr(s), y.size), [y], y.addr, y.addr);
  }

  /** There is room for the block between its neighbours. */
  lemma RoomBetween(m: Bytes, a: seq<Block>, c: seq<Block>, lo: int, size: int)
    requires Placed(m) && size >= FREE_HEADER_SIZE
    requires var tiles := Tiles(a, m.base, lo) && Tiles(c, lo + size, m.base + KERNEL_HEAP_SIZE); tiles
    ensures var can := CanRelink(m, lo, Header(LastAddr(FreeOf(a)), NextAddr(FreeOf(c)), size), 0); can
  {
    Neighbours(a, c, m.base, lo, lo + size, m.base + KERNEL_HEAP_SIZE);
    TilesBounds(a, m.base, lo);
    TilesBounds(c, lo + size, m.base + KERNEL_HEAP_SIZE);
  }

  /** Between a block and the next free block there is nothing, or at least another block. */
  lemma FirstBehind(c: seq<Block>, hi: int, end: int)
    requires Tiles(c, hi, end) && FreeOf(c) != []
    ensures c[0].free <==> NextAddr(FreeOf(c)) == hi
    ensures NextAddr(FreeOf(c)) == hi || NextAddr(FreeOf(c)) >= hi + KERNEL_MALLOC_HEADER_SIZE
  {
    if !c[0].free {
      assert FreeOf(c) == FreeOf(c[1..]);
      FreeApart(c[1..], c[0].End(), end);
    }
  }

  lemma {:induction false} LastBefore(a: seq<Block>, base: int, lo: int)
    requires Tiles(a, base, lo) && FreeOf(a) != []
    ensures var q := FreeOf(a)[|FreeOf(a)| - 1]; q.End() == lo || q.End() + KERNEL_MALLOC_HEADER_SIZE <= lo
  {
    var rest := a[1..];
    if FreeOf(rest) != [] {
      LastBefore(rest, a[0].End(), lo);
    } else if rest != [] {
      BlocksApart(rest, a[0].End(), lo);
    }
  }

  // ---------- `kfree` by cases ----------

  /** Where block `k` lies. */
  lemma BlockPlace(m: Bytes, blocks: seq<Block>, k: nat)
    requires Placed(m) && Tiles(blocks, m.base, m.base + KERNEL_HEAP_SIZE) && k < |blocks|
    ensures blocks[k].addr == m.base + Total(blocks[..k]) && blocks[k].size >= MinSize(blocks[k])
    ensures m.Has(blocks[k].addr, blocks[k].size)
    ensures Tiles(blocks[..k], m.base, blocks[k].addr)
    ensures Tiles(blocks[k + 1..], blocks[k].End(), m.base + KERNEL_HEAP_SIZE)
  {
    var a, b, c, end := blocks[..k], blocks[k], blocks[k + 1..], m.base + KERNEL_HEAP_SIZE;
    assert blocks == a + [b] + c;
    var lo, hi := TilesSplit(a, [b], c, m.base, end);
    Single(b);
    TilesBounds(a, m.base, lo);
    TilesBounds(c, hi, end);
  }

  /** A live block lies between the free blocks before and behind it. */
  lemma LiveAmongFree(blocks: seq<Block>, k: nat)
    requires k < |blocks| && !blocks[k].free
    ensures FreeOf(blocks) == FreeOf(blocks[..k]) + FreeOf(blocks[k + 1..])
  {
    assert blocks == blocks[..k] + [blocks[k]] + blocks[k + 1..];
    LiveBetween(blocks[..k], blocks[k], blocks[k + 1..]);
  }

  lemma LiveBetween(a: seq<Block>, b: Block, c: seq<Block>)
    requires !b.free
    ensures FreeOf(a + [b] + c) == FreeOf(a) + FreeOf(c)
  {
    FreeThree(a, [b], c);
    Single(b);
    assert FreeOf(a) + [] == FreeOf(a);
  }

  lemma FreeAround(m: Bytes, blocks: seq<Block>, k: nat)
    requires Placed(m) && Tiles(blocks, m.base, m.base + KERNEL_HEAP_SIZE) && k < |blocks| && !blocks[k].free
    ensures var p, s := FreeOf(blocks[..k]), FreeOf(blocks[k + 1..]);
      && (forall i | 0 <= i < |p| :: 0 < p[i].addr < blocks[k].addr)
      && (forall i | 0 <= i < |s| :: blocks[k].End() <= s[i].addr < END_OF_HEAP)
  {
    BlockPlace(m, blocks, k);
    FreeApart(blocks[..k], m.base, blocks[k].addr);
    FreeApart(blocks[k + 1..], blocks[k].End(), m.base + KERNEL_HEAP_SIZE);
  }

  lemma OkParts(m: Bytes, first: int, blocks: seq<Block>)
    requires var ok := HeapOk(m, first, blocks); ok
    ensures Placed(m) && first == FirstAddr(FreeOf(blocks))
    ensures var tiles := Tiles(blocks, m.base, m.base + KERNEL_HEAP_SIZE); tiles
    ensures var linked := Linked(m, first, FreeOf(blocks)); linked
    ensures forall k | 0 <= k < |blocks| && !blocks[k].free ::
      m.Has(blocks[k].addr, 8) && m.Load(blocks[k].addr) == blocks[k].size - KERNEL_MALLOC_HEADER_SIZE
  {
  }

  lemma PlainFreed(m: Bytes, first: int, blocks: seq<Block>, k: nat, m': Bytes)
    requires var ok := HeapOk(m, first, blocks); ok && k < |blocks| && !blocks[k].free && !JoinsFirst(blocks, k)
    requires var linked := LinkedIn(m, m', blocks[k].addr, HeaderOf(blocks, k)); linked
    ensures var ok := HeapOk(m', if FreeOf(blocks[..k]) == [] then blocks[k].addr else first, Freed(blocks, k)); ok
    ensures var kept := LiveKept(m, m', Freed(blocks, k)); kept
  {
    var a, b, c := blocks[..k], blocks[k], blocks[k + 1..];
    assert blocks == a + [b] + c;
    OkParts(m, first, blocks);
    BlockPlace(m, blocks, k);
    LiveAmongFree(blocks, k);
    Single(b);
    FreeStep(m, first, a, [b], c, b.(free := true), m');
  }

  lemma JoinedPlace(m: Bytes, first: int, blocks: seq<Block>, k: nat)
    requires var ok := HeapOk(m, first, blocks); ok && k + 1 < |blocks| && blocks[k + 1].free
    ensures blocks[k].addr == m.base + Total(blocks[..k])
    ensures Total([blocks[k], blocks[k + 1]]) == blocks[k].size + blocks[k + 1].size
    ensures blocks[k].size > 0 && blocks[k + 1].size >= FREE_HEADER_SIZE
  {
    OkParts(m, first, blocks);
    BlockPlace(m, blocks, k);
    BlockPlace(m, blocks, k + 1);
    assert [blocks[k], blocks[k + 1]][1..] == [blocks[k + 1]];
    Single(blocks[k + 1]);
  }

  lemma FirstWithout(p: seq<Block>, y: Block, s: seq<Block>)
    requires p == []
    ensures FirstAddr(p + [y] + s) == y.addr && LastAddr(p) == START_OF_HEAP
  {
  }

  lemma JoinedFreed(m: Bytes, first: int, blocks: seq<Block>, k: nat, m': Bytes)
    requires var ok := HeapOk(m, first, blocks); ok && k < |blocks| && !blocks[k].free && JoinsFirst(blocks, k)
    requires var next, size := NextAddr(FreeOf(blocks[k + 2..])), blocks[k].size + blocks[k + 1].size;
      var linked := LinkedIn(m, m', blocks[k].addr, Header(START_OF_HEAP, next, size)); linked
    ensures var ok := HeapOk(m', blocks[k].addr, Freed(blocks, k)); ok
    ensures var kept := LiveKept(m, m', Freed(blocks, k)); kept
  {
    var a, c, joined := blocks[..k], blocks[k + 2..], Block(blocks[k].addr, blocks[k].size + blocks[k + 1].size, true);
    JoinedParts(blocks, k);
    JoinedPlace(m, first, blocks, k);
    FirstWithout(FreeOf(a), joined, FreeOf(c));
    FreeStep(m, first, a, [blocks[k], blocks[k + 1]], c, joined, m');
  }

  lemma JoinedParts(blocks: seq<Block>, k: nat)
    requires k < |blocks| && JoinsFirst(blocks, k)
    ensures blocks == blocks[..k] + [blocks[k], blocks[k + 1]] + blocks[k + 2..] && FreeOf(blocks[..k]) == []
    ensures var joined := Block(blocks[k].addr, blocks[k].size + blocks[k + 1].size, true);
      Freed(blocks, k) == blocks[..k] + [joined] + blocks[k + 2..]
  {
  }

  /** The test `header_adr + size == free_block_adr` finds out whether the block is joined. */
  lemma JoinFacts(m: Bytes, first: int, blocks: seq<Block>, k: nat)
    requires var ok := HeapOk(m, first, blocks); ok && k < |blocks| && !blocks[k].free
    requires FreeOf(blocks[..k]) == [] && FreeOf(blocks[k + 1..]) != []
    ensures var s := FreeOf(blocks[k + 1..]);
      && (JoinsFirst(blocks, k) <==> blocks[k].End() == s[0].addr)
      && (JoinsFirst(blocks, k) ==>
            s[0] == blocks[k + 1] && s[0].size >= FREE_HEADER_SIZE && FreeOf(blocks[k + 2..]) == s[1..])
  {
    OkParts(m, first, blocks);
    BlockPlace(m, blocks, k);
    FirstBehind(blocks[k + 1..], blocks[k].End(), m.base + KERNEL_HEAP_SIZE);
    if JoinsFirst(blocks, k) {
      BlockPlace(m, blocks, k + 1);
      var c := blocks[k + 1..];
      assert c[1..] == blocks[k + 2..];
      assert FreeOf(c)[1..] == FreeOf(c[1..]);
    }
  }

  // ---------- The branches ----------

  method JoinBehind(m: Bytes, ghost first: int, ghost blocks: seq<Block>, ghost k: nat, header: int, size: nat,
          free_block: int) returns (m': Bytes)
    requires var ok := HeapOk(m, first, blocks); ok && k < |blocks| && !blocks[k].free && JoinsFirst(blocks, k)
    requires header == blocks[k].addr && size == blocks[k].size <= MAX_WORD
    requires free_block == blocks[k + 1].addr == header + size
    ensures var ok := HeapOk(m', header, Freed(blocks, k)); ok
    ensures var kept := LiveKept(m, m', Freed(blocks, k)); kept
  {
    ghost var h := JoinedRoom(m, first, blocks, k);
    m' := MergeFirst(m, header, size, free_block, h);
    JoinedFreed(m, first, blocks, k, m');
  }

  /** Between two free blocks. */
  method Between(m: Bytes, ghost first: int, ghost blocks: seq<Block>, ghost k: nat, header: int, size: nat,
          prev: int, free_block: int) returns (m': Bytes)
    requires var ok := HeapOk(m, first, blocks); ok && k < |blocks| && !blocks[k].free
    requires header == blocks[k].addr && size == blocks[k].size <= MAX_WORD && m.Has(header, FREE_HEADER_SIZE)
    requires 0 < Passed(blocks, k) < |FreeOf(blocks)|
    requires prev == FreeOf(blocks)[Passed(blocks, k) - 1].addr && free_block == FreeOf(blocks)[Passed(blocks, k)].addr
    ensures m'.base == m.base
    ensures Freeable(blocks, k) ==>
      && (var ok := HeapOk(m', first, Freed(blocks, k)); ok)
      && var kept := LiveKept(m, m', Freed(blocks, k)); kept
  {
    var prev_size := PrevSize(m, first, blocks, prev, Passed(blocks, k) - 1);
    NoMerge(m, first, blocks, k);
    var prev_contig_header := prev + prev_size + 1 == header;
    var header_contig_free_block := header + size + 1 == free_block;
    if prev_contig_header || header_contig_free_block {
      assert false;
    } else {
      m' := InsertBetween(m, first, blocks, k, header, size, prev, free_block);
    }
  }

  method PrevSize(m: Bytes, ghost first: int, ghost blocks: seq<Block>, prev: int, ghost i: nat) returns (size: int)
    requires var ok := HeapOk(m, first, blocks); ok
    requires i < |FreeOf(blocks)| && prev == FreeOf(blocks)[i].addr
    ensures size == FreeOf(blocks)[i].size
  {
    OkParts(m, first, blocks);
    size := ReadSize(m, first, FreeOf(blocks), i, prev);
  }

  method InsertBetween(m: Bytes, ghost first: int, ghost blocks: seq<Block>, ghost k: nat, header: int, size: nat,
          prev: int, free_block: int) returns (m': Bytes)
    requires var ok := HeapOk(m, first, blocks); ok && k < |blocks| && !blocks[k].free
    requires header == blocks[k].addr && size == blocks[k].size <= MAX_WORD && m.Has(header, FREE_HEADER_SIZE)
    requires 0 < Passed(blocks, k) < |FreeOf(blocks)|
    requires prev == FreeOf(blocks)[Passed(blocks, k) - 1].addr && free_block == FreeOf(blocks)[Passed(blocks, k)].addr
    ensures m'.base == m.base
    ensures Freeable(blocks, k) ==>
      && (var ok := HeapOk(m', first, Freed(blocks, k)); ok)
      && var kept := LiveKept(m, m', Freed(blocks, k)); kept
  {
    FreeHeader(m, first, blocks, k, Passed(blocks, k) - 1);
    FreeHeader(m, first, blocks, k, Passed(blocks, k));
    m' := InsertMiddle(m, header, size, prev, free_block);
    if Freeable(blocks, k) {
      BetweenFreed(m, first, blocks, k, Header(prev, free_block, size), m');
    }
  }

  lemma BetweenFreed(m: Bytes, first: int, blocks: seq<Block>, k: nat, h: Header, m': Bytes)
    requires var ok := HeapOk(m, first, blocks); ok && k < |blocks| && !blocks[k].free && Freeable(blocks, k)
    requires 0 < Passed(blocks, k) < |FreeOf(blocks)| && h.size == blocks[k].size
    requires h.prev == FreeOf(blocks)[Passed(blocks, k) - 1].addr && h.next == FreeOf(blocks)[Passed(blocks, k)].addr
    requires CanRelink(m, blocks[k].addr, h, 0) ==> var linked := LinkedIn(m, m', blocks[k].addr, h); linked
    ensures var ok := HeapOk(m', first, Freed(blocks, k)); ok
    ensures var kept := LiveKept(m, m', Freed(blocks, k)); kept
  {
    HeaderBetween(blocks, k, h);
    RoomFor(m, first, blocks, k);
    PlainFreed(m, first, blocks, k, m');
  }

  lemma HeaderBetween(blocks: seq<Block>, k: nat, h: Header)
    requires k < |blocks| && !blocks[k].free && Freeable(blocks, k) && FreeOf(blocks) != []
    requires 0 < Passed(blocks, k) < |FreeOf(blocks)| && h.size == blocks[k].size
    requires h.prev == FreeOf(blocks)[Passed(blocks, k) - 1].addr && h.next == FreeOf(blocks)[Passed(blocks, k)].addr
    ensures h == HeaderOf(blocks, k) && blocks[k].size >= FREE_HEADER_SIZE
    ensures FreeOf(blocks[..k]) != [] && !JoinsFirst(blocks, k)
  {
    WhereStopped(blocks, k);
  }

  /** Past the last free block of several: all well exactly if the owner left the end mark where `next` goes. */
  method PastLast(m: Bytes, ghost first: int, ghost blocks: seq<Block>, ghost k: nat, header: int, size: nat,
          free_block: int) returns (m': Bytes)
    requires var ok := HeapOk(m, first, blocks); ok && k < |blocks| && !blocks[k].free && FreeOf(blocks) != []
    requires header == blocks[k].addr && size == blocks[k].size <= MAX_WORD && m.Has(header, FREE_HEADER_SIZE)
    requires Passed(blocks, k) == |FreeOf(blocks)| >= 2 && free_block == FreeOf(blocks)[|FreeOf(blocks)| - 1].addr
    ensures m'.base == m.base
    ensures Freeable(blocks, k) ==>
      && (var ok := HeapOk(m', first, Freed(blocks, k)); ok <==> m.Load(header + 8) == END_OF_HEAP)
      && var kept := LiveKept(m, m', Freed(blocks, k)); m.Load(header + 8) == END_OF_HEAP ==> kept
  {
    FreeHeader(m, first, blocks, k, |FreeOf(blocks)| - 1);
    m' := Append(m, header, size, free_block);
    if Freeable(blocks, k) {
      WhereStopped(blocks, k);
      RoomFor(m, first, blocks, k);
      if m.Load(header + 8) == END_OF_HEAP {
        PlainFreed(m, first, blocks, k, m');
      } else {
        EndNotMarked(m, m', first, blocks, k);
      }
    }
  }

  /** What a store to free block `i` and to the block given back needs. */
  lemma FreeHeader(m: Bytes, first: int, blocks: seq<Block>, k: nat, i: nat)
    requires var ok := HeapOk(m, first, blocks); ok && k < |blocks| && i < |FreeOf(blocks)|
    ensures m.Has(FreeOf(blocks)[i].addr, FREE_HEADER_SIZE) && 0 < m.base && m.base + |m.data| < END_OF_HEAP
    ensures blocks[k].size > 0
  {
    OkParts(m, first, blocks);
    HeaderThere(m, first, FreeOf(blocks), i);
    BlockPlace(m, blocks, k);
  }

  lemma RoomFor(m: Bytes, first: int, blocks: seq<Block>, k: nat)
    requires var ok := HeapOk(m, first, blocks); ok && k < |blocks| && !blocks[k].free
    requires blocks[k].size >= FREE_HEADER_SIZE
    ensures var can := CanRelink(m, blocks[k].addr, HeaderOf(blocks, k), 0); can
    ensures m.Has(blocks[k].addr, FREE_HEADER_SIZE) && m.base + |m.data| < END_OF_HEAP
  {
    OkParts(m, first, blocks);
    BlockPlace(m, blocks, k);
    RoomBetween(m, blocks[..k], blocks[k + 1..], blocks[k].addr, blocks[k].size);
  }

  lemma RoomBehind(m: Bytes, first: int, blocks: seq<Block>, k: nat)
    requires var ok := HeapOk(m, first, blocks); ok && k < |blocks| && !blocks[k].free
    requires blocks[k].size >= FREE_HEADER_SIZE
    ensures var s := FreeOf(blocks[k + 1..]);
      s != [] ==> m.Has(s[0].addr, FREE_HEADER_SIZE) && blocks[k].addr + FREE_HEADER_SIZE <= s[0].addr < END_OF_HEAP
    ensures FreeOf(blocks[..k]) != [] ==> LastAddr(FreeOf(blocks[..k])) != START_OF_HEAP
  {
    OkParts(m, first, blocks);
    BlockPlace(m, blocks, k);
    Neighbours(blocks[..k], blocks[k + 1..], m.base, blocks[k].addr, blocks[k].End(), m.base + KERNEL_HEAP_SIZE);
  }

  lemma JoinedRoom(m: Bytes, first: int, blocks: seq<Block>, k: nat) returns (h: Header)
    requires var ok := HeapOk(m, first, blocks); ok && k < |blocks| && !blocks[k].free && JoinsFirst(blocks, k)
    ensures h == Header(START_OF_HEAP, NextAddr(FreeOf(blocks[k + 2..])), blocks[k].size + blocks[k + 1].size)
    ensures var can := CanRelink(m, blocks[k].addr, h, 0); can
    ensures blocks[k].size > 0 && blocks[k + 1].size >= FREE_HEADER_SIZE
    ensures m.Has(blocks[k + 1].addr, FREE_HEADER_SIZE)
    ensures HeaderAt(m, blocks[k + 1].addr) == Header(START_OF_HEAP, h.next, blocks[k + 1].size)
  {
    h := Header(START_OF_HEAP, NextAddr(FreeOf(blocks[k + 2..])), blocks[k].size + blocks[k + 1].size);
    OkParts(m, first, blocks);
    BlockPlace(m, blocks, k);
    BlockPlace(m, blocks, k + 1);
    RoomBetween(m, blocks[..k], blocks[k + 2..], blocks[k].addr, blocks[k].size + blocks[k + 1].size);
    JoinedHeader(m, first, blocks, k);
  }

  lemma JoinedHeader(m: Bytes, first: int, blocks: seq<Block>, k: nat)
    requires var ok := HeapOk(m, first, blocks); ok && k < |blocks| && !blocks[k].free && JoinsFirst(blocks, k)
    ensures m.Has(blocks[k + 1].addr, FREE_HEADER_SIZE)
    ensures var next := NextAddr(FreeOf(blocks[k + 2..]));
      HeaderAt(m, blocks[k + 1].addr) == Header(START_OF_HEAP, next, blocks[k + 1].size)
  {
    var a, b, b', c := blocks[..k], blocks[k], blocks[k + 1], blocks[k + 2..];
    assert blocks == (a + [b]) + [b'] + c;
    FreeConcat(a, [b]);
    Single(b);
    HeaderInParts(m, first, a + [b], b', c, m.base + Total(a + [b]), m.base + Total(a + [b]) + b'.size);
  }

  /** Without the end mark, the last free block does not end the list. */
  lemma EndNotMarked(m: Bytes, m': Bytes, first: int, blocks: seq<Block>, k: nat)
    requires k < |blocks| && !blocks[k].free && FreeOf(blocks[..k]) != [] && FreeOf(blocks[k + 1..]) == []
    requires m'.Has(blocks[k].addr, FREE_HEADER_SIZE) && HeaderAt(m', blocks[k].addr).next != END_OF_HEAP
    ensures var ok := HeapOk(m', first, Freed(blocks, k)); !ok
  {
    if HeapOk(m', first, Freed(blocks, k)) {
      var a, b, c := blocks[..k], blocks[k].(free := true), blocks[k + 1..];
      HeaderInParts(m', first, a, b, c, m'.base + Total(a), m'.base + Total(a) + b.size);
      assert false;
    }
  }

  lemma OnlyBefore(m: Bytes, first: int, blocks: seq<Block>, k: nat)
    requires var ok := HeapOk(m, first, blocks); ok && k < |blocks| && !blocks[k].free && FreeOf(blocks[..k]) != []
    ensures var q := FreeOf(blocks[..k])[0].addr; m.Has(q, FREE_HEADER_SIZE) && q + FREE_HEADER_SIZE <= blocks[k].addr
  {
    OkParts(m, first, blocks);
    BlockPlace(m, blocks, k);
    FreeApart(blocks[..k], m.base, blocks[k].addr);
  }

  lemma WrongFirst(m: Bytes, first: int, blocks: seq<Block>, k: nat)
    requires k < |blocks| && FreeOf(blocks[..k]) != [] && first != FreeOf(blocks[..k])[0].addr
    ensures var ok := HeapOk(m, first, Freed(blocks, k)); !ok
  {
    FreeThree(blocks[..k], [blocks[k].(free := true)], blocks[k + 1..]);
  }

  /** With no free block at all, the block is lost. */
  lemma NeverEmpty(m: Bytes, blocks: seq<Block>, k: nat)
    requires k < |blocks|
    ensures var ok := HeapOk(m, START_OF_HEAP, Freed(blocks, k)); !ok
  {
    if HeapOk(m, START_OF_HEAP, Freed(blocks, k)) {
      FreeApart(Freed(blocks, k), m.base, m.base + KERNEL_HEAP_SIZE);
      if JoinsFirst(blocks, k) {
        FreeThree(blocks[..k], [Block(blocks[k].addr, blocks[k].size + blocks[k + 1].size, true)], blocks[k + 2..]);
      } else {
        FreeThree(blocks[..k], [blocks[k].(free := true)], blocks[k + 1..]);
      }
    }
  }

  /** When `kfree` keeps the heap in order: the block has room for a header or joins one that has, and a free block lies
      above it, or there are at least two below and its second word happens to be the end mark. */
  predicate FreesWell(m: Bytes, blocks: seq<Block>, k: nat)
    requires k < |blocks|
  {
    Freeable(blocks, k) &&
    (FreeOf(blocks[k + 1..]) != [] || (|FreeOf(blocks[..k])| >= 2 && EndMarked(m, blocks[k])))
  }

  predicate EndMarked(m: Bytes, b: Block) {
    m.Has(b.addr + 8, 8) && m.Load(b.addr + 8) == END_OF_HEAP
  }

  // ---------- The search ----------

  /** The free blocks that the search passes: those below, and one directly behind a block of nothing but its size word,
      because `ptr` is where that one starts. */
  function Passed(blocks: seq<Block>, k: nat): nat
    requires k < |blocks|
  {
    |FreeOf(blocks[..k])| +
    if blocks[k].size == KERNEL_MALLOC_HEADER_SIZE && k + 1 < |blocks| && blocks[k + 1].free then 1 else 0
  }

  /** Where the search ends: at the first free block that it does not pass, or at the last. */
  function Stop(blocks: seq<Block>, k: nat): (i: nat)
    requires k < |blocks| && FreeOf(blocks) != []
    ensures i < |FreeOf(blocks)|
  {
    if Passed(blocks, k) < |FreeOf(blocks)| then Passed(blocks, k) else |FreeOf(blocks)| - 1
  }

  /** The search finds a block above `ptr`, or there is only one free block, which is not searched. */
  predicate Found(blocks: seq<Block>, k: nat)
    requires k < |blocks|
  {
    Passed(blocks, k) < |FreeOf(blocks)| || |FreeOf(blocks)| == 1
  }

  lemma FreeBehind(m: Bytes, blocks: seq<Block>, k: nat)
    requires Placed(m) && Tiles(blocks, m.base, m.base + KERNEL_HEAP_SIZE) && k < |blocks| && !blocks[k].free
    ensures var s := FreeOf(blocks[k + 1..]);
      && (s != [] && k + 1 < |blocks| && blocks[k + 1].free <==> s != [] && s[0].addr == blocks[k].End())
      && (k + 1 < |blocks| && blocks[k + 1].free ==> s != [])
      && forall i | 0 <= i < |s| ::
           s[i].addr > blocks[k].addr + 8 <==> i >= Passed(blocks, k) - |FreeOf(blocks[..k])|
  {
    BlockPlace(m, blocks, k);
    FreeApart(blocks[k + 1..], blocks[k].End(), m.base + KERNEL_HEAP_SIZE);
    if FreeOf(blocks[k + 1..]) != [] {
      FirstBehind(blocks[k + 1..], blocks[k].End(), m.base + KERNEL_HEAP_SIZE);
    }
  }

  lemma SearchFacts(m: Bytes, first: int, blocks: seq<Block>, k: nat)
    requires var ok := HeapOk(m, first, blocks); ok && k < |blocks| && !blocks[k].free && FreeOf(blocks) != []
    ensures var free := FreeOf(blocks);
      Passed(blocks, k) <= |free| && first == free[0].addr && var linked := Linked(m, first, free); linked
    ensures var free := FreeOf(blocks);
      forall i | 0 <= i < |free| ::
        0 < free[i].addr < END_OF_HEAP && (free[i].addr > blocks[k].addr + 8 <==> i >= Passed(blocks, k))
  {
    OkParts(m, first, blocks);
    LiveAmongFree(blocks, k);
    FreeAround(m, blocks, k);
    FreeBehind(m, blocks, k);
    BlockPlace(m, blocks, k);
  }

  /** For a block that can be freed: the search stops at the first free block above, if there is one. */
  lemma WhereStopped(blocks: seq<Block>, k: nat)
    requires k < |blocks| && !blocks[k].free && Freeable(blocks, k) && FreeOf(blocks) != []
    ensures var p, s := FreeOf(blocks[..k]), FreeOf(blocks[k + 1..]);
      && FreeOf(blocks) == p + s && Stop(blocks, k) == (if s != [] then |p| else |p| - 1)
      && (Found(blocks, k) <==> s != [] || |p| == 1)
      && (Stop(blocks, k) > 0 ==> blocks[k].size >= FREE_HEADER_SIZE && p != [])
  {
    LiveAmongFree(blocks, k);
  }

  method Search(m: Bytes, first: int, ghost blocks: seq<Block>, ghost k: nat, ptr: int)
    returns (free_block: int, found: bool)
    requires var ok := HeapOk(m, first, blocks); ok && k < |blocks| && !blocks[k].free && FreeOf(blocks) != []
    requires ptr == blocks[k].addr + 8
    ensures free_block == FreeOf(blocks)[Stop(blocks, k)].addr
    ensures found <==> Found(blocks, k)
  {
    SearchFacts(m, first, blocks, k);
    free_block, found := FindAbove(m, first, FreeOf(blocks), ptr, Passed(blocks, k));
  }

  /** The tests for merging with a neighbour in the middle of the list add 1 to the end of a block, and no block
      is one byte long: they never hold. */
  lemma NoMerge(m: Bytes, first: int, blocks: seq<Block>, k: nat)
    requires var ok := HeapOk(m, first, blocks); ok && k < |blocks| && !blocks[k].free
    requires 0 < Passed(blocks, k) < |FreeOf(blocks)|
    ensures var free, i := FreeOf(blocks), Passed(blocks, k);
      free[i - 1].End() + 1 != blocks[k].addr && blocks[k].End() + 1 != free[i].addr
  {
    OkParts(m, first, blocks);
    BlockPlace(m, blocks, k);
    LiveAmongFree(blocks, k);
    var p, s := FreeOf(blocks[..k]), FreeOf(blocks[k + 1..]);
    if p != [] {
      LastBefore(blocks[..k], m.base, blocks[k].addr);
    }
    if s != [] {
      FirstBehind(blocks[k + 1..], blocks[k].End(), m.base + KERNEL_HEAP_SIZE);
      FreeApart(blocks[k + 1..], blocks[k].End(), m.base + KERNEL_HEAP_SIZE);
    }
  }

  // ---------- `kfree` ----------

  /** Where `free_block->prev` is null: the block goes before the first free block, joined to it or not.  A single
      free block is taken for one above even if it lies below, and then the list starts at the wrong end. */
  method AtFront(m: Bytes, ghost first: int, ghost blocks: seq<Block>, ghost k: nat, header: int, size: nat,
          free_block: int) returns (m': Bytes)
    requires var ok := HeapOk(m, first, blocks); ok && k < |blocks| && !blocks[k].free && FreeOf(blocks) != []
    requires header == blocks[k].addr && size == blocks[k].size <= MAX_WORD && m.Has(header, FREE_HEADER_SIZE)
    requires Stop(blocks, k) == 0 && free_block == FreeOf(blocks)[0].addr
    requires Found(blocks, k)
    ensures m'.base == m.base
    ensures Freeable(blocks, k) ==>
      && (var ok := HeapOk(m', header, Freed(blocks, k)); ok <==> FreeOf(blocks[k + 1..]) != [])
      && var kept := LiveKept(m, m', Freed(blocks, k)); FreeOf(blocks[k + 1..]) != [] ==> kept
    ensures !Freeable(blocks, k) ==> !JoinsFirst(blocks, k)
  {
    FrontFacts(m, first, blocks, k, free_block);
    if header + size == free_block {
      m' := JoinBehind(m, first, blocks, k, header, size, free_block);
    } else {
      m' := InsertFirst(m, header, size, free_block);
      if Freeable(blocks, k) {
        FrontInserted(m, first, blocks, k, free_block, m');
      }
    }
  }

  lemma FrontFacts(m: Bytes, first: int, blocks: seq<Block>, k: nat, q: int)
    requires var ok := HeapOk(m, first, blocks); ok && k < |blocks| && !blocks[k].free && FreeOf(blocks) != []
    requires Stop(blocks, k) == 0 && q == FreeOf(blocks)[0].addr
    requires Found(blocks, k)
    ensures JoinsFirst(blocks, k) <==> blocks[k].End() == q
    ensures JoinsFirst(blocks, k) ==> Freeable(blocks, k) && q == blocks[k + 1].addr && FreeOf(blocks[k + 1..]) != []
    ensures m.Has(q, FREE_HEADER_SIZE) && m.base + |m.data| < END_OF_HEAP
  {
    LiveAmongFree(blocks, k);
    FreeHeader(m, first, blocks, k, 0);
    if FreeOf(blocks[..k]) != [] {
      OnlyBefore(m, first, blocks, k);
    } else {
      JoinFacts(m, first, blocks, k);
    }
  }

  lemma FrontInserted(m: Bytes, first: int, blocks: seq<Block>, k: nat, q: int, m': Bytes)
    requires var ok := HeapOk(m, first, blocks); ok && k < |blocks| && !blocks[k].free && FreeOf(blocks) != []
    requires Freeable(blocks, k) && Stop(blocks, k) == 0 && q == FreeOf(blocks)[0].addr && !JoinsFirst(blocks, k)
    requires var h := Header(START_OF_HEAP, q, blocks[k].size);
      var linked := LinkedIn(m, m', blocks[k].addr, h);
      CanRelink(m, blocks[k].addr, h, 0) && blocks[k].size > 0 ==> linked
    ensures var ok := HeapOk(m', blocks[k].addr, Freed(blocks, k)); ok <==> FreeOf(blocks[k + 1..]) != []
    ensures var kept := LiveKept(m, m', Freed(blocks, k)); FreeOf(blocks[k + 1..]) != [] ==> kept
  {
    WhereStopped(blocks, k);
    if FreeOf(blocks[k + 1..]) == [] {
      OnlyBefore(m, first, blocks, k);
      WrongFirst(m', blocks[k].addr, blocks, k);
    } else {
      RoomFor(m, first, blocks, k);
      PlainFreed(m, first, blocks, k, m');
    }
  }

  /** At the last free block. */
  method NextOfLast(m: Bytes, ghost first: int, ghost blocks: seq<Block>, free_block: int) returns (next: int)
    requires var ok := HeapOk(m, first, blocks); ok && FreeOf(blocks) != []
    requires free_block == FreeOf(blocks)[|FreeOf(blocks)| - 1].addr
    ensures next == END_OF_HEAP
  {
    OkParts(m, first, blocks);
    next := ReadNext(m, first, FreeOf(blocks), |FreeOf(blocks)| - 1, free_block);
  }

  method PrevOf(m: Bytes, ghost first: int, ghost blocks: seq<Block>, ghost i: nat, free_block: int) returns (prev: int)
    requires var ok := HeapOk(m, first, blocks); ok
    requires i < |FreeOf(blocks)| && free_block == FreeOf(blocks)[i].addr
    ensures prev == if i == 0 then START_OF_HEAP else FreeOf(blocks)[i - 1].addr
    ensures prev == START_OF_HEAP <==> i == 0
  {
    OkParts(m, first, blocks);
    prev := ReadPrev(m, first, FreeOf(blocks), i, free_block);
    FreeApart(blocks, m.base, m.base + KERNEL_HEAP_SIZE);
  }

  /** A block without room for a header that joins none, or that the search has passed the next one for. */
  lemma FreedBadly(m: Bytes, first: int, blocks: seq<Block>, k: nat, m': Bytes, first': int)
    requires var ok := HeapOk(m, first, blocks); ok && k < |blocks| && !blocks[k].free && !Freeable(blocks, k)
    requires m'.base == m.base && (JoinsFirst(blocks, k) ==> first' != blocks[k].addr)
    ensures var ok := HeapOk(m', first', Freed(blocks, k)); !ok
  {
    OkParts(m, first, blocks);
    if JoinsFirst(blocks, k) {
      var joined := Block(blocks[k].addr, blocks[k].size + blocks[k + 1].size, true);
      JoinedParts(blocks, k);
      FreeThree(blocks[..k], [joined], blocks[k + 2..]);
      Single(joined);
    } else {
      FreedTiles(blocks, k, m.base, m.base + KERNEL_HEAP_SIZE);
    }
  }

  /** Without room for a header in the heap, no free block lies behind. */
  lemma NoRoomAtEnd(m: Bytes, first: int, blocks: seq<Block>, k: nat)
    requires var ok := HeapOk(m, first, blocks); ok && k < |blocks| && !blocks[k].free
    requires !m.Has(blocks[k].addr, FREE_HEADER_SIZE)
    ensures FreeOf(blocks[k + 1..]) == [] && !Freeable(blocks, k) && !JoinsFirst(blocks, k)
  {
    OkParts(m, first, blocks);
    BlockPlace(m, blocks, k);
    FreeApart(blocks[k + 1..], blocks[k].End(), m.base + KERNEL_HEAP_SIZE);
    FreeBehind(m, blocks, k);
  }

  /** What decides between the branches. */
  lemma Branches(m: Bytes, first: int, blocks: seq<Block>, k: nat)
    requires var ok := HeapOk(m, first, blocks); ok && k < |blocks| && !blocks[k].free && FreeOf(blocks) != []
    ensures Passed(blocks, k) <= |FreeOf(blocks)| && FreeOf(blocks)[Stop(blocks, k)].addr != blocks[k].addr
    ensures JoinsFirst(blocks, k) ==> first != blocks[k].addr
    ensures Freeable(blocks, k) && !Found(blocks, k) ==> FreeOf(blocks)[Stop(blocks, k)].addr < blocks[k].addr
    ensures Freeable(blocks, k) ==>
      (FreesWell(m, blocks, k) <==>
         if !Found(blocks, k) then EndMarked(m, blocks[k])
         else Stop(blocks, k) == 0 ==> FreeOf(blocks[k + 1..]) != [])
  {
    SearchFacts(m, first, blocks, k);
    LiveAmongFree(blocks, k);
    OkParts(m, first, blocks);
    BlockPlace(m, blocks, k);
    FreeAround(m, blocks, k);
    if Freeable(blocks, k) {
      WhereStopped(blocks, k);
    }
  }

  /** What `kfree` promises of the bytes. */
  ghost predicate Released(m: Bytes, blocks: seq<Block>, k: nat, m': Bytes, first': int)
    requires k < |blocks|
  {
    && (HeapOk(m', first', Freed(blocks, k)) <==> FreesWell(m, blocks, k))
    && (FreesWell(m, blocks, k) ==> LiveKept(m, m', Freed(blocks, k)))
  }

  lemma NotReleased(m: Bytes, first: int, blocks: seq<Block>, k: nat, m': Bytes, first': int)
    requires var ok := HeapOk(m, first, blocks); ok && k < |blocks| && !blocks[k].free && !Freeable(blocks, k)
    requires m'.base == m.base && (JoinsFirst(blocks, k) ==> first' != blocks[k].addr)
    ensures var released := Released(m, blocks, k, m', first'); released
  {
    FreedBadly(m, first, blocks, k, m', first');
  }

  lemma ReleasedFrom(m: Bytes, blocks: seq<Block>, k: nat, m': Bytes, first': int, good: bool)
    requires k < |blocks| && (good <==> FreesWell(m, blocks, k))
    requires var ok := HeapOk(m', first', Freed(blocks, k)); ok <==> good
    requires var kept := LiveKept(m, m', Freed(blocks, k)); good ==> kept
    ensures var released := Released(m, blocks, k, m', first'); released
  {
  }

  /** Past the end of the list, if the block is there. */
  method ReleaseAtEnd(m: Bytes, ghost first: int, ghost blocks: seq<Block>, ghost k: nat, header: int, size: nat,
          free_block: int) returns (m': Bytes)
    requires var ok := HeapOk(m, first, blocks); ok && k < |blocks| && !blocks[k].free && FreeOf(blocks) != []
    requires header == blocks[k].addr && size == blocks[k].size <= MAX_WORD && m.Has(header, FREE_HEADER_SIZE)
    requires !Found(blocks, k) && free_block == FreeOf(blocks)[Stop(blocks, k)].addr
    ensures var released := Released(m, blocks, k, m', first); released
  {
    Branches(m, first, blocks, k);
    m' := m;
    var next := NextOfLast(m, first, blocks, free_block);
    if next == END_OF_HEAP && free_block <= header {
      if header > free_block {
        m' := PastLast(m, first, blocks, k, header, size, free_block);
      } else {
        assert false;
      }
    }
    if Freeable(blocks, k) {
      EndMarkedAt(m, blocks[k]);
      ReleasedFrom(m, blocks, k, m', first, m.Load(header + 8) == END_OF_HEAP);
    } else {
      NotReleased(m, first, blocks, k, m', first);
    }
  }

  lemma EndMarkedAt(m: Bytes, b: Block)
    requires m.Has(b.addr, FREE_HEADER_SIZE)
    ensures EndMarked(m, b) <==> m.Load(b.addr + 8) == END_OF_HEAP
  {
  }

  /** Before or among the free blocks. */
  method ReleaseFound(m: Bytes, first: int, ghost blocks: seq<Block>, ghost k: nat, header: int, size: nat,
          free_block: int) returns (m': Bytes, first': int)
    requires var ok := HeapOk(m, first, blocks); ok && k < |blocks| && !blocks[k].free && FreeOf(blocks) != []
    requires header == blocks[k].addr && size == blocks[k].size <= MAX_WORD && m.Has(header, FREE_HEADER_SIZE)
    requires Found(blocks, k) && free_block == FreeOf(blocks)[Stop(blocks, k)].addr
    ensures var released := Released(m, blocks, k, m', first'); released
  {
    Branches(m, first, blocks, k);
    first' := first;
    var prev := PrevOf(m, first, blocks, Stop(blocks, k), free_block);
    if prev == START_OF_HEAP {
      m' := AtFront(m, first, blocks, k, header, size, free_block);
      first' := header;
    } else {
      m' := Between(m, first, blocks, k, header, size, prev, free_block);
    }
    if Freeable(blocks, k) {
      ReleasedFrom(m, blocks, k, m', first', FreesWell(m, blocks, k));
    } else {
      NotReleased(m, first, blocks, k, m', first');
    }
  }

  /** `kfree` of a live block, when some block is free.  `outside` is a store behind the heap, of the header that every
      branch puts at the block. */
  method Release(m: Bytes, first: int, ghost blocks: seq<Block>, ghost k: nat, header: int, size: nat)
    returns (m': Bytes, first': int, outside: bool)
    requires var ok := HeapOk(m, first, blocks); ok && k < |blocks| && !blocks[k].free
    requires header == blocks[k].addr && size == blocks[k].size <= MAX_WORD && FreeOf(blocks) != []
    ensures outside <==> !m.Has(header, FREE_HEADER_SIZE)
    ensures var released := Released(m, blocks, k, m', first'); released
  {
    var free_block, found := Search(m, first, blocks, k, header + 8);
    m', first', outside := m, first, false;
    if !m.Has(header, FREE_HEADER_SIZE) {
      NoRoomAtEnd(m, first, blocks, k);
      NotReleased(m, first, blocks, k, m, first);
      return m, first, true;
    }
    if !found {
      m' := ReleaseAtEnd(m, first, blocks, k, header, size, free_block);
    } else {
      m', first' := ReleaseFound(m, first, blocks, k, header, size, free_block);
    }
  }

  lemma ReleasedParts(m: Bytes, blocks: seq<Block>, k: nat, m': Bytes, first': int)
    requires k < |blocks| && Released(m, blocks, k, m', first')
    ensures var ok := HeapOk(m', first', Freed(blocks, k)); ok <==> FreesWell(m, blocks, k)
    ensures var kept := LiveKept(m, m', Freed(blocks, k)); FreesWell(m, blocks, k) ==> kept
  {
  }
}
