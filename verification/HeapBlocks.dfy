/** The kernel heap as a sequence of blocks in address order, free and live, that tile it. */
module HeapBlocks {
  import opened Collections

  const KERNEL_HEAP_SIZE := 64 * 4096
  const KERNEL_MALLOC_HEADER_SIZE := 8

  /** A free block holds a header of three words: prev, next and size. */
  const FREE_HEADER_SIZE := 24

  /** A live block starts with the word that holds its request; `size` counts that word too. */
  datatype Block = Block(addr: int, size: int, free: bool) {
    function End(): int { addr + size }
  }

  function Total(blocks: seq<Block>): int {
    if blocks == [] then 0 else blocks[0].size + Total(blocks[1..])
  }

  /** A free block holds its header, a live one its size word. */
  function MinSize(b: Block): int {
    if b.free then FREE_HEADER_SIZE else KERNEL_MALLOC_HEADER_SIZE
  }

  /** The blocks fill the addresses from `lo` to `hi`, without gap or overlap. */
  predicate Tiles(blocks: seq<Block>, lo: int, hi: int) {
    if blocks == [] then lo == hi
    else blocks[0].addr == lo && blocks[0].size >= MinSize(blocks[0]) && Tiles(blocks[1..], blocks[0].End(), hi)
  }

  function FreeOf(blocks: seq<Block>): seq<Block> {
    if blocks == [] then []
    else (if blocks[0].free then [blocks[0]] else []) + FreeOf(blocks[1..])
  }

  function LiveOf(blocks: seq<Block>): seq<Block> {
    if blocks == [] then []
    else (if blocks[0].free then [] else [blocks[0]]) + LiveOf(blocks[1..])
  }

  // ---------- Concatenation ----------

  lemma {:induction false} TilesConcat(a: seq<Block>, b: seq<Block>, lo: int, hi: int)
    ensures Tiles(a + b, lo, hi) <==> Tiles(a, lo, lo + Total(a)) && Tiles(b, lo + Total(a), hi)
  {
    if a == [] {
      assert a + b == b;
    } else {
      assert (a + b)[1..] == a[1..] + b;
      TilesConcat(a[1..], b, a[0].End(), hi);
    }
  }

  lemma {:induction false} FreeConcat(a: seq<Block>, b: seq<Block>)
    ensures FreeOf(a + b) == FreeOf(a) + FreeOf(b) && Total(a + b) == Total(a) + Total(b)
  {
    if a == [] {
      assert a + b == b;
    } else {
      assert (a + b)[1..] == a[1..] + b && (a + b)[0] == a[0];
      FreeConcat(a[1..], b);
      Assoc(if a[0].free then [a[0]] else [], FreeOf(a[1..]), FreeOf(b));
    }
  }

  /** No byte is lost or counted twice: what is free and what is live add up to the whole. */
  lemma {:induction false} Conservation(blocks: seq<Block>, lo: int, hi: int)
    requires Tiles(blocks, lo, hi)
    ensures Total(FreeOf(blocks)) + Total(LiveOf(blocks)) == hi - lo
  {
    if blocks != [] {
      Conservation(blocks[1..], blocks[0].End(), hi);
      FreeTotal(blocks);
    }
  }

  lemma FreeTotal(blocks: seq<Block>)
    requires blocks != []
    ensures Total(FreeOf(blocks)) == Total(FreeOf(blocks[1..])) + (if blocks[0].free then blocks[0].size else 0)
    ensures Total(LiveOf(blocks)) == Total(LiveOf(blocks[1..])) + (if blocks[0].free then 0 else blocks[0].size)
  {
    assert [blocks[0]] + FreeOf(blocks[1..]) != [] && ([blocks[0]] + FreeOf(blocks[1..]))[1..] == FreeOf(blocks[1..]);
    assert [blocks[0]] + LiveOf(blocks[1..]) != [] && ([blocks[0]] + LiveOf(blocks[1..]))[1..] == LiveOf(blocks[1..]);
    assert [] + FreeOf(blocks[1..]) == FreeOf(blocks[1..]);
    assert [] + LiveOf(blocks[1..]) == LiveOf(blocks[1..]);
  }

  // ---------- Order ----------

  /** Blocks in address order within a range, perhaps with other blocks between them. */
  predicate Ordered(blocks: seq<Block>, lo: int, hi: int) {
    if blocks == [] then lo <= hi
    else lo <= blocks[0].addr && blocks[0].size >= MinSize(blocks[0]) && Ordered(blocks[1..], blocks[0].End(), hi)
  }

  lemma {:induction false} OrderedWider(blocks: seq<Block>, lo: int, lo': int, hi: int)
    requires Ordered(blocks, lo, hi) && lo' <= lo
    ensures Ordered(blocks, lo', hi)
  {
  }

  /** Every block lies in the range, and a later block lies entirely behind an earlier one. */
  lemma {:induction false} OrderedApart(blocks: seq<Block>, lo: int, hi: int)
    requires Ordered(blocks, lo, hi)
    ensures lo <= hi
    ensures forall k | 0 <= k < |blocks| ::
      lo <= blocks[k].addr && blocks[k].End() <= hi && blocks[k].size >= MinSize(blocks[k])
    ensures forall i, j | 0 <= i < j < |blocks| :: blocks[i].End() <= blocks[j].addr
  {
    if blocks != [] {
      OrderedApart(blocks[1..], blocks[0].End(), hi);
      forall i, j | 0 <= i < j < |blocks|
        ensures blocks[i].End() <= blocks[j].addr
      {
        if i == 0 {
          assert blocks[j] == blocks[1..][j - 1];
        } else {
          assert blocks[i] == blocks[1..][i - 1] && blocks[j] == blocks[1..][j - 1];
        }
      }
      forall k | 0 <= k < |blocks|
        ensures lo <= blocks[k].addr && blocks[k].End() <= hi && blocks[k].size >= MinSize(blocks[k])
      {
        if k > 0 {
          assert blocks[k] == blocks[1..][k - 1];
        }
      }
    }
  }

  lemma {:induction false} TilesOrdered(blocks: seq<Block>, lo: int, hi: int)
    requires Tiles(blocks, lo, hi)
    ensures Ordered(blocks, lo, hi)
  {
    if blocks != [] {
      TilesOrdered(blocks[1..], blocks[0].End(), hi);
    }
  }

  lemma {:induction false} FreeOrdered(blocks: seq<Block>, lo: int, hi: int)
    requires Tiles(blocks, lo, hi)
    ensures Ordered(FreeOf(blocks), lo, hi)
  {
    if blocks != [] {
      FreeOrdered(blocks[1..], blocks[0].End(), hi);
      if blocks[0].free {
        assert FreeOf(blocks)[1..] == FreeOf(blocks[1..]);
      } else {
        OrderedWider(FreeOf(blocks[1..]), blocks[0].End(), lo, hi);
        assert FreeOf(blocks) == FreeOf(blocks[1..]);
      }
    } else {
      assert lo == hi;
    }
  }

  /** No two blocks of the heap share a byte; nor do two free blocks, which are in address order. */
  lemma BlocksApart(blocks: seq<Block>, lo: int, hi: int)
    requires Tiles(blocks, lo, hi)
    ensures lo <= hi
    ensures forall k | 0 <= k < |blocks| ::
      lo <= blocks[k].addr && blocks[k].End() <= hi && blocks[k].size >= MinSize(blocks[k])
    ensures forall i, j | 0 <= i < j < |blocks| :: blocks[i].End() <= blocks[j].addr
  {
    TilesOrdered(blocks, lo, hi);
    OrderedApart(blocks, lo, hi);
  }

  lemma TilesBounds(blocks: seq<Block>, lo: int, hi: int)
    requires Tiles(blocks, lo, hi)
    ensures lo <= hi
  {
    BlocksApart(blocks, lo, hi);
  }

  lemma {:induction false} AllFree(blocks: seq<Block>)
    ensures forall k | 0 <= k < |FreeOf(blocks)| :: FreeOf(blocks)[k].free
  {
    if blocks != [] {
      AllFree(blocks[1..]);
    }
  }

  lemma FreeApart(blocks: seq<Block>, lo: int, hi: int)
    requires Tiles(blocks, lo, hi)
    ensures var free := FreeOf(blocks);
      && (forall k | 0 <= k < |free| ::
            lo <= free[k].addr && free[k].End() <= hi && free[k].size >= FREE_HEADER_SIZE && free[k].free)
      && (forall i, j | 0 <= i < j < |free| :: free[i].End() <= free[j].addr)
  {
    AllFree(blocks);
    FreeOrdered(blocks, lo, hi);
    OrderedApart(FreeOf(blocks), lo, hi);
  }

  /** Where free block `j` is among all blocks. */
  lemma {:induction false} Locate(blocks: seq<Block>, j: nat) returns (k: nat)
    requires j < |FreeOf(blocks)|
    ensures k < |blocks| && blocks[k].free && blocks[k] == FreeOf(blocks)[j]
    ensures FreeOf(blocks[..k]) == FreeOf(blocks)[..j] && FreeOf(blocks[k + 1..]) == FreeOf(blocks)[j + 1..]
  {
    if blocks[0].free && j == 0 {
      k := 0;
      assert FreeOf(blocks)[1..] == FreeOf(blocks[1..]);
      assert blocks[..0] == [];
    } else {
      var i := if blocks[0].free then j - 1 else j;
      k := Locate(blocks[1..], i);
      LocateOneMore(blocks, j, k, i);
      k := k + 1;
    }
  }

  /** The first block, if it is free. */
  function FreeHead(blocks: seq<Block>): seq<Block>
    requires blocks != []
  {
    if blocks[0].free then [blocks[0]] else []
  }

  lemma FreeBehindHead(blocks: seq<Block>, k: nat)
    requires k < |blocks|
    ensures FreeOf(blocks[..k + 1]) == FreeHead(blocks) + FreeOf(blocks[1..][..k])
    ensures FreeOf(blocks) == FreeHead(blocks) + FreeOf(blocks[1..])
  {
    assert blocks[..k + 1][0] == blocks[0] && blocks[..k + 1][1..] == blocks[1..][..k];
  }

  lemma HeadAndTail<T>(head: seq<T>, s: seq<T>, i: nat, j: nat)
    requires i < |s| && j == |head| + i
    ensures (head + s)[j] == s[i] && (head + s)[..j] == head + s[..i] && (head + s)[j + 1..] == s[i + 1..]
  {
  }

  lemma LocateOneMore(blocks: seq<Block>, j: nat, k: nat, i: nat)
    requires blocks != [] && j == |FreeHead(blocks)| + i && i < |FreeOf(blocks[1..])|
    requires k < |blocks[1..]| && FreeOf(blocks[1..][..k]) == FreeOf(blocks[1..])[..i]
    requires FreeOf(blocks[1..][k + 1..]) == FreeOf(blocks[1..])[i + 1..]
    ensures j < |FreeOf(blocks)| && FreeOf(blocks)[j] == FreeOf(blocks[1..])[i]
    ensures FreeOf(blocks[..k + 1]) == FreeOf(blocks)[..j] && FreeOf(blocks[k + 2..]) == FreeOf(blocks)[j + 1..]
  {
    FreeBehindHead(blocks, k);
    HeadAndTail(FreeHead(blocks), FreeOf(blocks[1..]), i, j);
    assert blocks[k + 2..] == blocks[1..][k + 1..];
  }

  // ---------- First fit, and giving back ----------

  /** The first free block of at least `need` bytes, or the number of blocks. */
  function FirstFit(blocks: seq<Block>, need: int): (k: nat)
    ensures k <= |blocks|
    ensures k < |blocks| ==> blocks[k].free && blocks[k].size >= need
    ensures forall i | 0 <= i < k :: !(blocks[i].free && blocks[i].size >= need)
  {
    if blocks == [] || (blocks[0].free && blocks[0].size >= need) then 0 else 1 + FirstFit(blocks[1..], need)
  }

  /** Block `k` given out: `need` bytes live, and the rest, if any, still free. */
  function Allocated(blocks: seq<Block>, k: nat, need: int): seq<Block>
    requires k < |blocks|
  {
    blocks[..k] + Carved(blocks[k], need) + blocks[k + 1..]
  }

  function Carved(b: Block, need: int): seq<Block> {
    [Block(b.addr, need, false)] + if b.size == need then [] else [Block(b.addr + need, b.size - need, true)]
  }

  /** The request fits a whole block, or leaves room for the header of a free one. */
  predicate SplitsWell(b: Block, need: int) {
    b.size == need || b.size >= need + FREE_HEADER_SIZE
  }

  /** The middle of a tiling tiles its own addresses. */
  lemma TilesSplit(a: seq<Block>, x: seq<Block>, c: seq<Block>, lo: int, hi: int) returns (m: int, n: int)
    requires Tiles(a + x + c, lo, hi)
    ensures m == lo + Total(a) && n == m + Total(x)
    ensures Tiles(a, lo, m) && Tiles(x, m, n) && Tiles(c, n, hi)
  {
    m, n := lo + Total(a), lo + Total(a) + Total(x);
    TilesConcat(a + x, c, lo, hi);
    FreeConcat(a, x);
    TilesConcat(a, x, lo, n);
  }

  lemma TilesTwo(a: seq<Block>, b: seq<Block>, lo: int, m: int, hi: int)
    requires Tiles(a, lo, m) && Tiles(b, m, hi)
    ensures Tiles(a + b, lo, hi)
  {
    TilesTotal(a, lo, m);
    TilesConcat(a, b, lo, hi);
  }

  lemma TilesJoin(a: seq<Block>, x: seq<Block>, c: seq<Block>, lo: int, m: int, n: int, hi: int)
    requires var parts := Tiles(a, lo, m) && Tiles(x, m, n) && Tiles(c, n, hi); parts
    ensures var tiles := Tiles(a + x + c, lo, hi); tiles
  {
    TilesTwo(a, x, lo, m, n);
    TilesTwo(a + x, c, lo, n, hi);
  }

  /** Carving a block leaves blocks exactly if the request holds its size word, and what is left, if anything, a
      header. */
  lemma CarvedTilesIff(b: Block, need: int, m: int, n: int)
    requires Tiles([b], m, n) && b.size >= need
    ensures Tiles(Carved(b, need), m, n) <==> need >= KERNEL_MALLOC_HEADER_SIZE && SplitsWell(b, need)
  {
    var carved := Carved(b, need);
    if b.size != need {
      assert carved[1..] == [Block(b.addr + need, b.size - need, true)];
      assert carved[1..][1..] == [];
    } else {
      assert carved[1..] == [];
    }
  }

  lemma AllocatedTiles(blocks: seq<Block>, k: nat, need: int, lo: int, hi: int)
    requires Tiles(blocks, lo, hi) && k < |blocks| && blocks[k].size >= need
    ensures Tiles(Allocated(blocks, k, need), lo, hi) <==>
      need >= KERNEL_MALLOC_HEADER_SIZE && SplitsWell(blocks[k], need)
  {
    assert blocks[..k] + [blocks[k]] + blocks[k + 1..] == blocks;
    var m, n := TilesSplit(blocks[..k], [blocks[k]], blocks[k + 1..], lo, hi);
    CarvedTilesIff(blocks[k], need, m, n);
    CarvedTotal(blocks[k], need);
    if need >= KERNEL_MALLOC_HEADER_SIZE && SplitsWell(blocks[k], need) {
      TilesJoin(blocks[..k], Carved(blocks[k], need), blocks[k + 1..], lo, m, n, hi);
    } else if Tiles(Allocated(blocks, k, need), lo, hi) {
      var m', n' := TilesSplit(blocks[..k], Carved(blocks[k], need), blocks[k + 1..], lo, hi);
      assert false;
    }
  }

  lemma CarvedTotal(b: Block, need: int)
    ensures Total(Carved(b, need)) == b.size == Total([b])
  {
    var live, rest := Block(b.addr, need, false), Block(b.addr + need, b.size - need, true);
    assert [b][1..] == [] && [live][1..] == [] && [live, rest][1..] == [rest] && [rest][1..] == [];
    assert Total([live]) == need && Total([live, rest]) == need + Total([rest]);
    assert Carved(b, need) == if b.size == need then [live] else [live, rest];
  }

  lemma {:induction false} TilesTotal(blocks: seq<Block>, lo: int, hi: int)
    requires Tiles(blocks, lo, hi)
    ensures Total(blocks) == hi - lo
  {
    if blocks != [] {
      TilesTotal(blocks[1..], blocks[0].End(), hi);
    }
  }

  /** Block `k` given back.  `kfree` joins it to the block behind it only if that is the first free block. */
  function Freed(blocks: seq<Block>, k: nat): seq<Block>
    requires k < |blocks|
  {
    var b := blocks[k];
    if JoinsFirst(blocks, k) then
      blocks[..k] + [Block(b.addr, b.size + blocks[k + 1].size, true)] + blocks[k + 2..]
    else
      blocks[..k] + [b.(free := true)] + blocks[k + 1..]
  }

  predicate JoinsFirst(blocks: seq<Block>, k: nat)
    requires k < |blocks|
  {
    FreeOf(blocks[..k]) == [] && k + 1 < |blocks| && blocks[k + 1].free
  }

  lemma JoinedTiles(b: Block, c: Block, m: int, n: int)
    requires Tiles([b, c], m, n) && c.free
    ensures Tiles([Block(b.addr, b.size + c.size, true)], m, n)
  {
    assert [b, c][1..] == [c] && [c][1..] == [];
  }

  /** The block given back has room for a header, or joins one that has.  The search for the block above compares with
      the address behind the size word, which is where a block without any other byte ends: the block behind it is found
      only if it is the only free one. */
  predicate Freeable(blocks: seq<Block>, k: nat)
    requires k < |blocks|
  {
    || blocks[k].size >= FREE_HEADER_SIZE
    || (JoinsFirst(blocks, k) && (blocks[k].size > KERNEL_MALLOC_HEADER_SIZE || |FreeOf(blocks)| == 1))
  }

  /** A block given back is a block exactly if it has room for a header or joins one that has. */
  lemma FreedTiles(blocks: seq<Block>, k: nat, lo: int, hi: int)
    requires Tiles(blocks, lo, hi) && k < |blocks| && !blocks[k].free
    ensures Tiles(Freed(blocks, k), lo, hi) <==> blocks[k].size >= FREE_HEADER_SIZE || JoinsFirst(blocks, k)
  {
    var b := blocks[k];
    if JoinsFirst(blocks, k) {
      assert blocks[..k] + [b, blocks[k + 1]] + blocks[k + 2..] == blocks;
      var m, n := TilesSplit(blocks[..k], [b, blocks[k + 1]], blocks[k + 2..], lo, hi);
      JoinedTiles(b, blocks[k + 1], m, n);
      TilesJoin(blocks[..k], [Block(b.addr, b.size + blocks[k + 1].size, true)], blocks[k + 2..], lo, m, n, hi);
    } else {
      assert blocks[..k] + [b] + blocks[k + 1..] == blocks;
      PlainFreedTiles(blocks[..k], b, blocks[k + 1..], lo, hi);
    }
  }

  lemma PlainFreedTiles(a: seq<Block>, b: Block, c: seq<Block>, lo: int, hi: int)
    requires Tiles(a + [b] + c, lo, hi) && !b.free
    ensures Tiles(a + [b.(free := true)] + c, lo, hi) <==> b.size >= FREE_HEADER_SIZE
  {
    var y := b.(free := true);
    assert [b][1..] == [] && [y][1..] == [];
    var m, n := TilesSplit(a, [b], c, lo, hi);
    if b.size >= FREE_HEADER_SIZE {
      assert Tiles([y], m, n);
      TilesJoin(a, [y], c, lo, m, n, hi);
    } else if Tiles(a + [y] + c, lo, hi) {
      var m', n' := TilesSplit(a, [y], c, lo, hi);
      assert false;
    }
  }
}
