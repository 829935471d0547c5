/** The free list inside the heap's own bytes: headers with prev, next and size at the start of each free
    block (include/lib/kmalloc.h). */
module HeapList {
  import opened LittleEndian
  import opened HeapMemory
  import opened HeapBlocks

  const START_OF_HEAP := 0
  const END_OF_HEAP := MAX_WORD

  datatype Header = Header(prev: int, next: int, size: int)

  function HeaderAt(m: Bytes, a: int): Header
    requires m.Has(a, FREE_HEADER_SIZE)
  {
    Header(m.Load(a), m.Load(a + 8), m.Load(a + 16))
  }

  /** Storing one field of the header at `a` changes that field, and no header that does not overlap it. */
  ghost predicate Updates(m: Bytes, m': Bytes, a: int, h: Header, w: int) {
    && m.Has(a, FREE_HEADER_SIZE) && OnlyWord(m, m', w) && HeaderAt(m', a) == h
    && forall o {:trigger HeaderAt(m', o)} | m.Has(o, FREE_HEADER_SIZE) && (o + FREE_HEADER_SIZE <= w || w + 8 <= o) ::
         HeaderAt(m', o) == HeaderAt(m, o)
  }

  lemma OtherStays(m: Bytes, w: int, v: nat, o: int)
    requires m.Has(w, 8) && v <= MAX_WORD && m.Has(o, FREE_HEADER_SIZE) && (o + FREE_HEADER_SIZE <= w || w + 8 <= o)
    ensures HeaderAt(m.Store(w, v), o) == HeaderAt(m, o)
  {
    StoreElsewhere(m, w, v, o);
    StoreElsewhere(m, w, v, o + 8);
    StoreElsewhere(m, w, v, o + 16);
  }

  lemma StoreUpdates(m: Bytes, a: int, h: Header, w: int, v: nat)
    requires m.Has(a, FREE_HEADER_SIZE) && v <= MAX_WORD && m.Has(w, 8) && HeaderAt(m.Store(w, v), a) == h
    ensures Updates(m, m.Store(w, v), a, h, w)
  {
    StoreLoad(m, w, v);
    forall o | m.Has(o, FREE_HEADER_SIZE) && (o + FREE_HEADER_SIZE <= w || w + 8 <= o)
      ensures HeaderAt(m.Store(w, v), o) == HeaderAt(m, o)
    {
      OtherStays(m, w, v, o);
    }
  }

  lemma PrevStored(m: Bytes, a: int, v: nat)
    requires m.Has(a, FREE_HEADER_SIZE) && v <= MAX_WORD
    ensures HeaderAt(m.Store(a, v), a) == HeaderAt(m, a).(prev := v)
  {
    StoreLoad(m, a, v);
    StoreElsewhere(m, a, v, a + 8);
    StoreElsewhere(m, a, v, a + 16);
  }

  lemma NextStored(m: Bytes, a: int, v: nat)
    requires m.Has(a, FREE_HEADER_SIZE) && v <= MAX_WORD
    ensures HeaderAt(m.Store(a + 8, v), a) == HeaderAt(m, a).(next := v)
  {
    StoreLoad(m, a + 8, v);
    StoreElsewhere(m, a + 8, v, a);
    StoreElsewhere(m, a + 8, v, a + 16);
  }

  lemma SizeStored(m: Bytes, a: int, v: nat)
    requires m.Has(a, FREE_HEADER_SIZE) && v <= MAX_WORD
    ensures HeaderAt(m.Store(a + 16, v), a) == HeaderAt(m, a).(size := v)
  {
    StoreLoad(m, a + 16, v);
    StoreElsewhere(m, a + 16, v, a);
    StoreElsewhere(m, a + 16, v, a + 8);
  }

  method SetPrev(m: Bytes, a: int, v: nat) returns (m': Bytes)
    requires m.Has(a, FREE_HEADER_SIZE) && v <= MAX_WORD
    ensures Updates(m, m', a, HeaderAt(m, a).(prev := v), a)
  {
    PrevStored(m, a, v);
    StoreUpdates(m, a, HeaderAt(m, a).(prev := v), a, v);
    m' := m.Store(a, v);
  }

  method SetNext(m: Bytes, a: int, v: nat) returns (m': Bytes)
    requires m.Has(a, FREE_HEADER_SIZE) && v <= MAX_WORD
    ensures Updates(m, m', a, HeaderAt(m, a).(next := v), a + 8)
  {
    NextStored(m, a, v);
    StoreUpdates(m, a, HeaderAt(m, a).(next := v), a + 8, v);
    m' := m.Store(a + 8, v);
  }

  method SetSize(m: Bytes, a: int, v: nat) returns (m': Bytes)
    requires m.Has(a, FREE_HEADER_SIZE) && v <= MAX_WORD
    ensures Updates(m, m', a, HeaderAt(m, a).(size := v), a + 16)
  {
    SizeStored(m, a, v);
    StoreUpdates(m, a, HeaderAt(m, a).(size := v), a + 16, v);
    m' := m.Store(a + 16, v);
  }

  // ---------- What the list means ----------

  function FirstAddr(free: seq<Block>): int {
    if free == [] then START_OF_HEAP else free[0].addr
  }

  function LastAddr(free: seq<Block>): int {
    if free == [] then START_OF_HEAP else free[|free| - 1].addr
  }

  function NextAddr(free: seq<Block>): int {
    if free == [] then END_OF_HEAP else free[0].addr
  }

  /** The header of free block `k`: prev and next are mutually inverse by construction. */
  ghost predicate HasLinks(h: Header, free: seq<Block>, k: nat)
    requires k < |free|
  {
    && h.prev == LastAddr(free[..k]) && h.next == NextAddr(free[k + 1..]) && h.size == free[k].size
  }

  ghost predicate LinkedAt(m: Bytes, b: Block, free: seq<Block>, k: nat)
    requires k < |free|
  {
    m.Has(b.addr, FREE_HEADER_SIZE) && HasLinks(HeaderAt(m, b.addr), free, k)
  }

  ghost predicate Linked(m: Bytes, first: int, free: seq<Block>) {
    && first == FirstAddr(free)
    && forall k {:trigger LinkedAt(m, free[k], free, k)} | 0 <= k < |free| :: LinkedAt(m, free[k], free, k)
  }

  /** The first word of a live block holds the size that was asked for. */
  ghost predicate Sized(m: Bytes, blocks: seq<Block>) {
    forall k {:trigger blocks[k]} | 0 <= k < |blocks| && !blocks[k].free ::
      m.Has(blocks[k].addr, 8) && m.Load(blocks[k].addr) == blocks[k].size - KERNEL_MALLOC_HEADER_SIZE
  }

  predicate Placed(m: Bytes) {
    0 < m.base && |m.data| == KERNEL_HEAP_SIZE && m.base + KERNEL_HEAP_SIZE < END_OF_HEAP
  }

  /** The bytes of the heap, with `first_free`, represent the blocks. */
  ghost predicate HeapOk(m: Bytes, first: int, blocks: seq<Block>) {
    && Placed(m) && Tiles(blocks, m.base, m.base + KERNEL_HEAP_SIZE)
    && Linked(m, first, FreeOf(blocks)) && Sized(m, blocks)
  }

  // ---------- Replacing part of the heap ----------

  /** Memory changes only from `lo` to `hi`, in the next field of a free block before, and in the prev
      field of a free block behind. */
  ghost predicate OnlyNear(m: Bytes, m': Bytes, lo: int, hi: int, prev: int, next: int) {
    && m'.base == m.base && |m'.data| == |m.data|
    && forall x {:trigger m'.At(x)} | m.Has(x, 1) && !(lo <= x < hi)
         && !(prev != START_OF_HEAP && prev + 8 <= x < prev + 16) && !(next != END_OF_HEAP && next <= x < next + 8) ::
         m'.At(x) == m.At(x)
  }

  /** A header that none of these bytes belongs to stays as it is. */
  lemma HeaderStays(m: Bytes, m': Bytes, lo: int, hi: int, prev: int, next: int, a: int)
    requires OnlyNear(m, m', lo, hi, prev, next) && m.Has(a, FREE_HEADER_SIZE)
    requires a + FREE_HEADER_SIZE <= lo || hi <= a
    requires prev != START_OF_HEAP ==> a + FREE_HEADER_SIZE <= prev + 8 || prev + 16 <= a
    requires next != END_OF_HEAP ==> a + FREE_HEADER_SIZE <= next || next + 8 <= a
    ensures HeaderAt(m', a) == HeaderAt(m, a)
  {
    LoadSame(m, m', a);
    LoadSame(m, m', a + 8);
    LoadSame(m, m', a + 16);
  }

  /** The free blocks `d` between `p` and `s` replaced by at most one block `n`: its header links it in,
      its neighbours point to it (or to each other), and nothing else changes. */
  ghost predicate Spliced(m: Bytes, m': Bytes, lo: int, hi: int, p: seq<Block>, n: seq<Block>, s: seq<Block>) {
    && |n| <= 1 && OnlyNear(m, m', lo, hi, LastAddr(p), NextAddr(s))
    && (n != [] ==>
          && m.Has(n[0].addr, FREE_HEADER_SIZE)
          && HeaderAt(m', n[0].addr) == Header(LastAddr(p), NextAddr(s), n[0].size))
    && (p != [] ==>
          && m.Has(LastAddr(p), FREE_HEADER_SIZE)
          && HeaderAt(m', LastAddr(p)) == HeaderAt(m, LastAddr(p)).(next := NextAddr(n + s)))
    && (s != [] ==>
          && m.Has(NextAddr(s), FREE_HEADER_SIZE)
          && HeaderAt(m', NextAddr(s)) == HeaderAt(m, NextAddr(s)).(prev := LastAddr(p + n)))
  }

  ghost predicate SameHeader(m: Bytes, m': Bytes, a: int) {
    m.Has(a, FREE_HEADER_SIZE) && m'.Has(a, FREE_HEADER_SIZE) && HeaderAt(m', a) == HeaderAt(m, a)
  }

  /** A block of `p` but the last, or of `s` but the first, keeps its header. */
  lemma FarHeaders(m: Bytes, m': Bytes, lo: int, hi: int, p: seq<Block>, s: seq<Block>, end: int)
    requires 0 < m.base && m.base <= lo <= hi <= end < END_OF_HEAP && end <= m.base + |m.data|
    requires Ordered(p, m.base, lo) && Ordered(s, hi, end) && (forall b | b in p + s :: b.free)
    requires OnlyNear(m, m', lo, hi, LastAddr(p), NextAddr(s))
    ensures forall k | 0 <= k < |p| - 1 :: SameHeader(m, m', p[k].addr)
    ensures forall k | 0 < k < |s| :: SameHeader(m, m', s[k].addr)
  {
    forall k | 0 <= k < |p| - 1
      ensures SameHeader(m, m', p[k].addr)
    {
      assert forall b | b in p :: b in p + s;
      assert forall b | b in s :: b in p + s;
      FarBefore(m, m', lo, hi, p, s, end, k);
    }
    forall k | 0 < k < |s|
      ensures SameHeader(m, m', s[k].addr)
    {
      assert forall b | b in p :: b in p + s;
      assert forall b | b in s :: b in p + s;
      FarBehind(m, m', lo, hi, p, s, end, k);
    }
  }

  lemma FarBefore(m: Bytes, m': Bytes, lo: int, hi: int, p: seq<Block>, s: seq<Block>, end: int, k: nat)
    requires 0 < m.base && m.base <= lo <= hi <= end < END_OF_HEAP && end <= m.base + |m.data|
    requires Ordered(p, m.base, lo) && Ordered(s, hi, end)
    requires (forall b | b in p :: b.free) && (forall b | b in s :: b.free) && k < |p| - 1
    requires OnlyNear(m, m', lo, hi, LastAddr(p), NextAddr(s))
    ensures SameHeader(m, m', p[k].addr)
  {
    OrderedApart(p, m.base, lo);
    OrderedApart(s, hi, end);
    assert p[k].free && p[|p| - 1].free && p[k].End() <= p[|p| - 1].addr;
    HeaderStays(m, m', lo, hi, LastAddr(p), NextAddr(s), p[k].addr);
  }

  lemma FarBehind(m: Bytes, m': Bytes, lo: int, hi: int, p: seq<Block>, s: seq<Block>, end: int, k: nat)
    requires 0 < m.base && m.base <= lo <= hi <= end < END_OF_HEAP && end <= m.base + |m.data|
    requires Ordered(p, m.base, lo) && Ordered(s, hi, end)
    requires (forall b | b in p :: b.free) && (forall b | b in s :: b.free) && 0 < k < |s|
    requires OnlyNear(m, m', lo, hi, LastAddr(p), NextAddr(s))
    ensures SameHeader(m, m', s[k].addr)
  {
    OrderedApart(p, m.base, lo);
    OrderedApart(s, hi, end);
    assert s[k].free && s[0].free && s[0].End() <= s[k].addr;
    HeaderStays(m, m', lo, hi, LastAddr(p), NextAddr(s), s[k].addr);
  }

  /** The links of `p + x + s`, block by block. */
  lemma LinksBefore(p: seq<Block>, x: seq<Block>, s: seq<Block>, k: nat, h: Header)
    requires k < |p|
    ensures HasLinks(h, p + x + s, k) <==>
      && h.prev == LastAddr(p[..k]) && h.size == p[k].size
      && h.next == if k + 1 == |p| then NextAddr(x + s) else p[k + 1].addr
  {
    var all := p + x + s;
    assert all[..k] == p[..k];
    assert all[k + 1..] == p[k + 1..] + (x + s);
    if k + 1 == |p| {
      assert all[k + 1..] == x + s;
    }
  }

  lemma LinksBehind(p: seq<Block>, x: seq<Block>, s: seq<Block>, i: nat, h: Header)
    requires i < |s|
    ensures HasLinks(h, p + x + s, |p| + |x| + i) <==>
      && h.next == NextAddr(s[i + 1..]) && h.size == s[i].size
      && h.prev == if i == 0 then LastAddr(p + x) else s[i - 1].addr
  {
    var all, k := p + x + s, |p| + |x| + i;
    assert all[k + 1..] == s[i + 1..];
    assert all[..k] == (p + x) + s[..i];
    if i == 0 {
      assert all[..k] == p + x;
    }
  }

  lemma LinksOfOne(p: seq<Block>, n: Block, s: seq<Block>, h: Header)
    ensures HasLinks(h, p + [n] + s, |p|) <==> h == Header(LastAddr(p), NextAddr(s), n.size)
  {
    var all := p + [n] + s;
    assert all[..|p|] == p && all[|p| + 1..] == s;
  }

  /** The list in three parts. */
  ghost predicate LinkedInParts(m: Bytes, p: seq<Block>, x: seq<Block>, s: seq<Block>) {
    && (forall k | 0 <= k < |p| :: LinkedAt(m, p[k], p + x + s, k))
    && (forall i | 0 <= i < |x| :: LinkedAt(m, x[i], p + x + s, |p| + i))
    && (forall i | 0 <= i < |s| :: LinkedAt(m, s[i], p + x + s, |p| + |x| + i))
  }

  lemma ToParts(m: Bytes, first: int, p: seq<Block>, x: seq<Block>, s: seq<Block>)
    requires Linked(m, first, p + x + s)
    ensures var parts := LinkedInParts(m, p, x, s); parts
  {
    var all := p + x + s;
    forall k | 0 <= k < |p|
      ensures LinkedAt(m, p[k], all, k)
    {
      assert LinkedAt(m, all[k], all, k);
    }
    forall i | 0 <= i < |x|
      ensures LinkedAt(m, x[i], all, |p| + i)
    {
      assert LinkedAt(m, all[|p| + i], all, |p| + i);
    }
    forall i | 0 <= i < |s|
      ensures LinkedAt(m, s[i], all, |p| + |x| + i)
    {
      assert LinkedAt(m, all[|p| + |x| + i], all, |p| + |x| + i);
    }
  }

  lemma FromParts(m: Bytes, p: seq<Block>, x: seq<Block>, s: seq<Block>)
    requires LinkedInParts(m, p, x, s)
    ensures var linked := Linked(m, FirstAddr(p + x + s), p + x + s); linked
  {
    var all := p + x + s;
    forall k | 0 <= k < |all|
      ensures LinkedAt(m, all[k], all, k)
    {
      if k < |p| {
        assert LinkedAt(m, p[k], all, k);
      } else if k < |p| + |x| {
        assert LinkedAt(m, x[k - |p|], all, |p| + (k - |p|));
      } else {
        assert LinkedAt(m, s[k - |p| - |x|], all, |p| + |x| + (k - |p| - |x|));
      }
    }
  }

  lemma SpliceLinks(m: Bytes, first: int, m': Bytes, lo: int, hi: int, p: seq<Block>, d: seq<Block>, n: seq<Block>,
          s: seq<Block>, end: int)
    requires Linked(m, first, p + d + s) && Spliced(m, m', lo, hi, p, n, s)
    requires 0 < m.base && m.base <= lo <= hi <= end < END_OF_HEAP && end <= m.base + |m.data|
    requires Ordered(p, m.base, lo) && Ordered(s, hi, end) && (forall b | b in p + s :: b.free)
    ensures var linked := Linked(m', FirstAddr(p + n + s), p + n + s); linked
  {
    ToParts(m, first, p, d, s);
    FarHeaders(m, m', lo, hi, p, s, end);
    PrefixSpliced(m, m', lo, hi, p, d, n, s);
    SuffixSpliced(m, m', lo, hi, p, d, n, s);
    MiddleSpliced(m, m', lo, hi, p, n, s);
    FromParts(m', p, n, s);
  }

  lemma MiddleSpliced(m: Bytes, m': Bytes, lo: int, hi: int, p: seq<Block>, n: seq<Block>, s: seq<Block>)
    requires var spliced := Spliced(m, m', lo, hi, p, n, s); spliced
    ensures forall i | 0 <= i < |n| :: LinkedAt(m', n[i], p + n + s, |p| + i)
  {
    if n != [] {
      assert n == [n[0]];
      LinksOfOne(p, n[0], s, HeaderAt(m', n[0].addr));
    }
  }

  lemma PrefixSpliced(m: Bytes, m': Bytes, lo: int, hi: int, p: seq<Block>, d: seq<Block>, n: seq<Block>, s: seq<Block>)
    requires var parts := LinkedInParts(m, p, d, s); parts
    requires var spliced := Spliced(m, m', lo, hi, p, n, s); spliced
    requires forall k | 0 <= k < |p| - 1 :: SameHeader(m, m', p[k].addr)
    ensures forall k | 0 <= k < |p| :: LinkedAt(m', p[k], p + n + s, k)
  {
    forall k | 0 <= k < |p|
      ensures LinkedAt(m', p[k], p + n + s, k)
    {
      assert LinkedAt(m, p[k], p + d + s, k);
      LinksBefore(p, d, s, k, HeaderAt(m, p[k].addr));
      LinksBefore(p, n, s, k, HeaderAt(m', p[k].addr));
    }
  }

  lemma SuffixSpliced(m: Bytes, m': Bytes, lo: int, hi: int, p: seq<Block>, d: seq<Block>, n: seq<Block>, s: seq<Block>)
    requires var parts := LinkedInParts(m, p, d, s); parts
    requires var spliced := Spliced(m, m', lo, hi, p, n, s); spliced
    requires forall k | 0 < k < |s| :: SameHeader(m, m', s[k].addr)
    ensures forall i | 0 <= i < |s| :: LinkedAt(m', s[i], p + n + s, |p| + |n| + i)
  {
    forall i | 0 <= i < |s|
      ensures LinkedAt(m', s[i], p + n + s, |p| + |n| + i)
    {
      assert LinkedAt(m, s[i], p + d + s, |p| + |d| + i);
      LinksBehind(p, d, s, i, HeaderAt(m, s[i].addr));
      LinksBehind(p, n, s, i, HeaderAt(m', s[i].addr));
    }
  }

  // ---------- The whole heap ----------

  lemma {:induction false} FreeIsBlock(blocks: seq<Block>, b: Block) returns (k: nat)
    requires b in FreeOf(blocks)
    ensures k < |blocks| && blocks[k] == b && b.free
  {
    var j :| 0 <= j < |FreeOf(blocks)| && FreeOf(blocks)[j] == b;
    k := Locate(blocks, j);
  }

  /** No byte of a live block differs: neither its size word nor what its owner stored there. */
  ghost predicate LiveKept(m: Bytes, m': Bytes, blocks: seq<Block>) {
    && m'.base == m.base && |m'.data| == |m.data|
    && forall k, x {:trigger blocks[k], m'.At(x)} |
         0 <= k < |blocks| && !blocks[k].free && blocks[k].addr <= x < blocks[k].End() && m.Has(x, 1) ::
         m'.At(x) == m.At(x)
  }

  /** A live block before or behind the exchanged part overlaps no header that changes. */
  lemma LiveBefore(m: Bytes, m': Bytes, a: seq<Block>, lo: int, hi: int, next: int)
    requires Tiles(a, m.base, lo) && lo <= hi && hi <= m.base + |m.data| && 0 < m.base
    requires OnlyNear(m, m', lo, hi, LastAddr(FreeOf(a)), next) && hi <= next
    ensures LiveKept(m, m', a)
  {
    BlocksApart(a, m.base, lo);
    var p := FreeOf(a);
    if p != [] {
      var q := FreeIsBlock(a, p[|p| - 1]);
      assert a[q].addr == LastAddr(p);
    }
  }

  lemma LiveBehind(m: Bytes, m': Bytes, c: seq<Block>, lo: int, hi: int, prev: int, end: int)
    requires Tiles(c, hi, end) && m.base <= lo <= hi && end <= m.base + |m.data| && end < END_OF_HEAP
    requires OnlyNear(m, m', lo, hi, prev, NextAddr(FreeOf(c))) && (prev != START_OF_HEAP ==> prev + 16 <= lo)
    ensures LiveKept(m, m', c)
  {
    BlocksApart(c, hi, end);
    var s := FreeOf(c);
    if s != [] {
      var q := FreeIsBlock(c, s[0]);
      assert c[q].addr == NextAddr(s);
    }
  }

  lemma SizedKept(m: Bytes, m': Bytes, blocks: seq<Block>, lo: int, hi: int)
    requires Sized(m, blocks) && LiveKept(m, m', blocks) && Tiles(blocks, lo, hi)
    ensures Sized(m', blocks)
  {
    BlocksApart(blocks, lo, hi);
    forall k | 0 <= k < |blocks| && !blocks[k].free
      ensures m'.Has(blocks[k].addr, 8) && m'.Load(blocks[k].addr) == blocks[k].size - KERNEL_MALLOC_HEADER_SIZE
    {
      LoadSame(m, m', blocks[k].addr);
    }
  }

  /** What is free does not count. */
  lemma LiveParts(m: Bytes, m': Bytes, a: seq<Block>, b: Block, c: seq<Block>)
    requires LiveKept(m, m', a) && LiveKept(m, m', c) && b.free
    ensures LiveKept(m, m', a + [b] + c)
  {
    var all := a + [b] + c;
    forall k, x | 0 <= k < |all| && !all[k].free && all[k].addr <= x < all[k].End() && m.Has(x, 1)
      ensures m'.At(x) == m.At(x)
    {
      if k < |a| {
        assert all[k] == a[k];
      } else {
        assert k != |a| && all[k] == c[k - |a| - 1];
      }
    }
  }

  lemma SizedParts(m: Bytes, a: seq<Block>, x: seq<Block>, c: seq<Block>)
    ensures Sized(m, a + x + c) <==> Sized(m, a) && Sized(m, x) && Sized(m, c)
  {
    var all := a + x + c;
    if Sized(m, all) {
      forall k | 0 <= k < |a| && !a[k].free
        ensures m.Has(a[k].addr, 8) && m.Load(a[k].addr) == a[k].size - KERNEL_MALLOC_HEADER_SIZE
      {
        assert all[k] == a[k];
      }
      forall k | 0 <= k < |x| && !x[k].free
        ensures m.Has(x[k].addr, 8) && m.Load(x[k].addr) == x[k].size - KERNEL_MALLOC_HEADER_SIZE
      {
        assert all[|a| + k] == x[k];
      }
      forall k | 0 <= k < |c| && !c[k].free
        ensures m.Has(c[k].addr, 8) && m.Load(c[k].addr) == c[k].size - KERNEL_MALLOC_HEADER_SIZE
      {
        assert all[|a| + |x| + k] == c[k];
      }
    }
  }

  /** The neighbours of an exchanged part lie outside it. */
  lemma Neighbours(a: seq<Block>, c: seq<Block>, base: int, lo: int, hi: int, end: int)
    requires Tiles(a, base, lo) && Tiles(c, hi, end) && 0 < base && end < END_OF_HEAP
    ensures LastAddr(FreeOf(a)) != START_OF_HEAP ==>
      base <= LastAddr(FreeOf(a)) && LastAddr(FreeOf(a)) + FREE_HEADER_SIZE <= lo
    ensures LastAddr(FreeOf(a)) == START_OF_HEAP <==> FreeOf(a) == []
    ensures hi <= NextAddr(FreeOf(c)) && (NextAddr(FreeOf(c)) == END_OF_HEAP <==> FreeOf(c) == [])
    ensures NextAddr(FreeOf(c)) != END_OF_HEAP ==> NextAddr(FreeOf(c)) + FREE_HEADER_SIZE <= end
  {
    FreeApart(a, base, lo);
    FreeApart(c, hi, end);
    BlocksApart(c, hi, end);
  }

  /** Exchanging part of the heap for blocks that fill the same addresses: if the bytes relink the free
      blocks and size the live ones there, the heap represents the new blocks. */
  lemma Exchange(m: Bytes, first: int, a: seq<Block>, x: seq<Block>, c: seq<Block>, y: seq<Block>, m': Bytes,
          lo: int, hi: int)
    requires var ok := HeapOk(m, first, a + x + c); ok && lo == m.base + Total(a) && hi == lo + Total(x)
    requires Tiles(y, lo, hi) && var sized := Sized(m', y); sized
    requires var spliced := Spliced(m, m', lo, hi, FreeOf(a), FreeOf(y), FreeOf(c)); spliced
    ensures var ok := HeapOk(m', FirstAddr(FreeOf(a) + FreeOf(y) + FreeOf(c)), a + y + c); ok
    ensures var kept := LiveKept(m, m', a) && LiveKept(m, m', c); kept
  {
    var end := m.base + KERNEL_HEAP_SIZE;
    FreeThree(a, x, c);
    FreeThree(a, y, c);
    TilesInParts(a, x, c, m.base, lo, hi, end);
    ExchangeLinks(m, first, a, x, c, y, m', lo, hi, end);
    ExchangeSizes(m, a, x, c, y, m', lo, hi, end);
    TilesJoin(a, y, c, m.base, lo, hi, end);
    MakeOk(m', FirstAddr(FreeOf(a) + FreeOf(y) + FreeOf(c)), a + y + c);
  }

  lemma MakeOk(m: Bytes, first: int, blocks: seq<Block>)
    requires Placed(m) && var tiles := Tiles(blocks, m.base, m.base + KERNEL_HEAP_SIZE); tiles
    requires var linked := Linked(m, first, FreeOf(blocks)); linked
    requires var sized := Sized(m, blocks); sized
    ensures var ok := HeapOk(m, first, blocks); ok
  {
  }

  lemma TilesInParts(a: seq<Block>, x: seq<Block>, c: seq<Block>, base: int, lo: int, hi: int, end: int)
    requires Tiles(a + x + c, base, end) && lo == base + Total(a) && hi == lo + Total(x)
    ensures Tiles(a, base, lo) && Tiles(x, lo, hi) && Tiles(c, hi, end)
  {
    var m, n := TilesSplit(a, x, c, base, end);
  }

  lemma FreeThree(a: seq<Block>, x: seq<Block>, c: seq<Block>)
    ensures FreeOf(a + x + c) == FreeOf(a) + FreeOf(x) + FreeOf(c)
  {
    FreeConcat(a + x, c);
    FreeConcat(a, x);
  }

  lemma ExchangeSizes(m: Bytes, a: seq<Block>, x: seq<Block>, c: seq<Block>, y: seq<Block>, m': Bytes, lo: int,
          hi: int, end: int)
    requires var sized := Sized(m, a + x + c) && Sized(m', y); sized
    requires Placed(m) && end == m.base + KERNEL_HEAP_SIZE
    requires Tiles(a, m.base, lo) && Tiles(y, lo, hi) && Tiles(c, hi, end)
    requires OnlyNear(m, m', lo, hi, LastAddr(FreeOf(a)), NextAddr(FreeOf(c)))
    ensures var sized := Sized(m', a + y + c); sized
    ensures var kept := LiveKept(m, m', a) && LiveKept(m, m', c); kept
  {
    SizedParts(m, a, x, c);
    Neighbours(a, c, m.base, lo, hi, end);
    BlocksApart(a, m.base, lo);
    BlocksApart(y, lo, hi);
    BlocksApart(c, hi, end);
    LiveBefore(m, m', a, lo, hi, NextAddr(FreeOf(c)));
    LiveBehind(m, m', c, lo, hi, LastAddr(FreeOf(a)), end);
    SizedKept(m, m', a, m.base, lo);
    SizedKept(m, m', c, hi, end);
    SizedParts(m', a, y, c);
  }

  lemma ExchangeLinks(m: Bytes, first: int, a: seq<Block>, x: seq<Block>, c: seq<Block>, y: seq<Block>, m': Bytes,
          lo: int, hi: int, end: int)
    requires var linked := Linked(m, first, FreeOf(a) + FreeOf(x) + FreeOf(c)); linked
    requires Placed(m) && end == m.base + KERNEL_HEAP_SIZE
    requires Tiles(a, m.base, lo) && Tiles(y, lo, hi) && Tiles(c, hi, end)
    requires var spliced := Spliced(m, m', lo, hi, FreeOf(a), FreeOf(y), FreeOf(c)); spliced
    ensures var all := FreeOf(a) + FreeOf(y) + FreeOf(c); var linked := Linked(m', FirstAddr(all), all); linked
  {
    FreeOrdered(a, m.base, lo);
    FreeOrdered(c, hi, end);
    AllFree(a);
    AllFree(c);
    BlocksApart(a, m.base, lo);
    BlocksApart(y, lo, hi);
    BlocksApart(c, hi, end);
    SpliceLinks(m, first, m', lo, hi, FreeOf(a), FreeOf(x), FreeOf(y), FreeOf(c), end);
  }
}
