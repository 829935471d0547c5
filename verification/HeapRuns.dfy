/** Runs of the heap: what every sequence of `kmalloc` and `kfree` keeps. */
module HeapRuns {
  import opened HeapBlocks

  datatype Op = Alloc(size: nat) | Free(k: nat)

  /** The calls after which the bytes represent the blocks again: a request that fits somewhere and leaves nothing or
      a header's worth, and a live block with room for a header given back with a free one above it. */
  predicate CanDo(blocks: seq<Block>, op: Op) {
    match op
    case Alloc(size) =>
      var k := FirstFit(blocks, size + KERNEL_MALLOC_HEADER_SIZE);
      k < |blocks| && SplitsWell(blocks[k], size + KERNEL_MALLOC_HEADER_SIZE)
    case Free(k) => k < |blocks| && !blocks[k].free && Freeable(blocks, k) && FreeOf(blocks[k + 1..]) != []
  }

  function Do(blocks: seq<Block>, op: Op): seq<Block>
    requires CanDo(blocks, op)
  {
    match op
    case Alloc(size) =>
      var need := size + KERNEL_MALLOC_HEADER_SIZE;
      Allocated(blocks, FirstFit(blocks, need), need)
    case Free(k) => Freed(blocks, k)
  }

  /** The block that the call brings to life, or takes. */
  function Subject(blocks: seq<Block>, op: Op): Block
    requires CanDo(blocks, op)
  {
    match op
    case Alloc(size) =>
      var need := size + KERNEL_MALLOC_HEADER_SIZE;
      Block(blocks[FirstFit(blocks, need)].addr, need, false)
    case Free(k) => blocks[k]
  }

  predicate IsRun(states: seq<seq<Block>>, ops: seq<Op>) {
    && |states| == |ops| + 1
    && forall i | 0 <= i < |ops| :: RunStep(states, ops, i)
  }

  predicate RunStep(states: seq<seq<Block>>, ops: seq<Op>, i: nat)
    requires i < |ops| && |states| == |ops| + 1
  {
    CanDo(states[i], ops[i]) && states[i + 1] == Do(states[i], ops[i])
  }

  /** Call `i` gives back `b`. */
  predicate GivesBack(states: seq<seq<Block>>, ops: seq<Op>, b: Block, i: nat)
    requires i < |ops| && |states| == |ops| + 1
  {
    ops[i].Free? && ops[i].k < |states[i]| && states[i][ops[i].k] == b
  }

  // ---------- One call ----------

  lemma {:induction false} LiveConcat(a: seq<Block>, b: seq<Block>)
    ensures LiveOf(a + b) == LiveOf(a) + LiveOf(b)
  {
    if a == [] {
      assert a + b == b;
    } else {
      assert (a + b)[1..] == a[1..] + b;
      LiveConcat(a[1..], b);
    }
  }

  lemma ThreeParts<T>(p: seq<T>, x: seq<T>, s: seq<T>)
    ensures multiset(p + x + s) == multiset(p) + multiset(s) + multiset(x)
  {
  }

  ghost function Live(blocks: seq<Block>): multiset<Block> {
    multiset(LiveOf(blocks))
  }

  lemma LiveThree(a: seq<Block>, x: seq<Block>, c: seq<Block>)
    ensures Live(a + x + c) == Live(a) + Live(c) + Live(x)
  {
    LiveConcat(a + x, c);
    LiveConcat(a, x);
    ThreeParts(LiveOf(a), LiveOf(x), LiveOf(c));
  }

  lemma LiveOne(b: Block)
    ensures LiveOf([b]) == (if b.free then [] else [b]) && Live([b]) == if b.free then multiset{} else multiset{b}
  {
    assert [b][1..] == [];
  }

  lemma LiveTwo(b: Block, c: Block)
    requires !b.free && c.free
    ensures Live([b, c]) == multiset{b}
  {
    assert [b, c] == [b] + [c];
    LiveConcat([b], [c]);
    LiveOne(b);
    LiveOne(c);
  }

  lemma CarvedLive(b: Block, need: int)
    ensures Live(Carved(b, need)) == multiset{Block(b.addr, need, false)}
  {
    var live, rest := Block(b.addr, need, false), Block(b.addr + need, b.size - need, true);
    LiveOne(live);
    LiveTwo(live, rest);
  }

  lemma AllocLedger(blocks: seq<Block>, k: nat, need: int)
    requires k < |blocks| && blocks[k].free
    ensures Live(Allocated(blocks, k, need)) == Live(blocks) + multiset{Block(blocks[k].addr, need, false)}
  {
    var a, b, c := blocks[..k], blocks[k], blocks[k + 1..];
    assert blocks == a + [b] + c;
    LiveThree(a, [b], c);
    LiveThree(a, Carved(b, need), c);
    LiveOne(b);
    CarvedLive(b, need);
  }

  lemma JoinedLedger(a: seq<Block>, b: Block, b': Block, c: seq<Block>, joined: Block)
    requires !b.free && b'.free && joined.free
    ensures Live(a + [b, b'] + c) == Live(a + [joined] + c) + multiset{b}
  {
    LiveThree(a, [b, b'], c);
    LiveThree(a, [joined], c);
    LiveTwo(b, b');
    LiveOne(joined);
  }

  lemma PlainLedger(a: seq<Block>, b: Block, c: seq<Block>)
    requires !b.free
    ensures Live(a + [b] + c) == Live(a + [b.(free := true)] + c) + multiset{b}
  {
    LiveThree(a, [b], c);
    LiveThree(a, [b.(free := true)], c);
    LiveOne(b);
    LiveOne(b.(free := true));
  }

  lemma SplitOne<T>(s: seq<T>, k: nat)
    requires k < |s|
    ensures s == s[..k] + [s[k]] + s[k + 1..]
  {
  }

  lemma SplitTwo<T>(s: seq<T>, k: nat)
    requires k + 1 < |s|
    ensures s == s[..k] + [s[k], s[k + 1]] + s[k + 2..]
  {
  }

  lemma FreeLedger(blocks: seq<Block>, k: nat)
    requires k < |blocks| && !blocks[k].free
    ensures Live(blocks) == Live(Freed(blocks, k)) + multiset{blocks[k]}
  {
    var b := blocks[k];
    if JoinsFirst(blocks, k) {
      SplitTwo(blocks, k);
      JoinedLedger(blocks[..k], b, blocks[k + 1], blocks[k + 2..], Block(b.addr, b.size + blocks[k + 1].size, true));
    } else {
      SplitOne(blocks, k);
      PlainLedger(blocks[..k], b, blocks[k + 1..]);
    }
  }

  /** What one call does to the blocks that are live: one comes, or one goes. */
  lemma Ledger(blocks: seq<Block>, op: Op)
    requires CanDo(blocks, op)
    ensures op.Alloc? ==> Live(Do(blocks, op)) == Live(blocks) + multiset{Subject(blocks, op)}
    ensures op.Free? ==> Live(blocks) == Live(Do(blocks, op)) + multiset{Subject(blocks, op)}
  {
    match op
    case Alloc(size) =>
      var need := size + KERNEL_MALLOC_HEADER_SIZE;
      AllocLedger(blocks, FirstFit(blocks, need), need);
    case Free(k) => FreeLedger(blocks, k);
  }

  /** What `kmalloc` gives out overlaps no other block, free or live, before or after the call. */
  lemma GivenOutApart(blocks: seq<Block>, k: nat, need: int, lo: int, hi: int, b: Block)
    requires Tiles(blocks, lo, hi) && k < |blocks| && blocks[k].size >= need >= KERNEL_MALLOC_HEADER_SIZE
    requires SplitsWell(blocks[k], need)
    ensures var given := Block(blocks[k].addr, need, false);
      && Allocated(blocks, k, need)[k] == given && lo <= given.addr && given.End() <= hi
      && (forall i | 0 <= i < |Allocated(blocks, k, need)| && i != k ::
            var other := Allocated(blocks, k, need)[i]; other.End() <= given.addr || given.End() <= other.addr)
      && (b in blocks && b != blocks[k] ==> b.End() <= given.addr || given.End() <= b.addr)
  {
    AllocatedTiles(blocks, k, need, lo, hi);
    BlocksApart(Allocated(blocks, k, need), lo, hi);
    BlocksApart(blocks, lo, hi);
  }

  // ---------- Every run ----------

  lemma StepTiles(blocks: seq<Block>, op: Op, lo: int, hi: int)
    requires Tiles(blocks, lo, hi) && CanDo(blocks, op)
    ensures Tiles(Do(blocks, op), lo, hi)
  {
    match op
    case Alloc(size) =>
      var need := size + KERNEL_MALLOC_HEADER_SIZE;
      AllocatedTiles(blocks, FirstFit(blocks, need), need, lo, hi);
    case Free(k) => FreedTiles(blocks, k, lo, hi);
  }

  /** Free blocks and live ones fill the heap after every call of every run, and their sizes add up to it. */
  lemma {:induction false} RunTiles(states: seq<seq<Block>>, ops: seq<Op>, lo: int, hi: int, i: nat)
    requires IsRun(states, ops) && Tiles(states[0], lo, hi) && i <= |ops|
    ensures Tiles(states[i], lo, hi)
    ensures Total(FreeOf(states[i])) + Total(LiveOf(states[i])) == hi - lo
  {
    if i > 0 {
      RunTiles(states, ops, lo, hi, i - 1);
      assert RunStep(states, ops, i - 1);
      StepTiles(states[i - 1], ops[i - 1], lo, hi);
    }
    Conservation(states[i], lo, hi);
  }

  lemma StepKeepsLive(blocks: seq<Block>, op: Op, b: Block)
    requires CanDo(blocks, op) && b in LiveOf(blocks) && (op.Free? ==> Subject(blocks, op) != b)
    ensures b in LiveOf(Do(blocks, op))
  {
    Ledger(blocks, op);
    assert b in Live(blocks);
    assert b in Live(Do(blocks, op));
  }

  lemma CallKeepsLive(states: seq<seq<Block>>, ops: seq<Op>, b: Block, i: nat)
    requires i < |ops| && |states| == |ops| + 1 && RunStep(states, ops, i) && b in LiveOf(states[i])
    requires !GivesBack(states, ops, b, i)
    ensures b in LiveOf(states[i + 1])
  {
    StepKeepsLive(states[i], ops[i], b);
  }

  /** A block stays live, where it is and as large as it is, until the very call that gives it back. */
  lemma {:induction false} StaysLive(states: seq<seq<Block>>, ops: seq<Op>, b: Block, i: nat, j: nat)
    requires IsRun(states, ops) && i <= j <= |ops| && b in LiveOf(states[i])
    requires forall n | i <= n < j :: !GivesBack(states, ops, b, n)
    ensures b in LiveOf(states[j])
    decreases j
  {
    if i < j {
      StaysLive(states, ops, b, i, j - 1);
      CallKeepsLive(states, ops, b, j - 1);
    }
  }

  // ---------- Giving back what was given out ----------

  /** Giving back what was just given out restores the blocks exactly if nothing was left of the block and the one
      behind it does not join it, or something was and the block was the first free one, which the rest joins again. */
  lemma UndoneIff(blocks: seq<Block>, k: nat, need: int)
    requires k < |blocks| && blocks[k].free && blocks[k].size >= need
    ensures Freed(Allocated(blocks, k, need), k) == blocks <==>
      if blocks[k].size == need then FreeOf(blocks[..k]) != [] || k + 1 == |blocks| || !blocks[k + 1].free
      else FreeOf(blocks[..k]) == []
  {
    var b, given := blocks[k], Allocated(blocks, k, need);
    assert blocks == blocks[..k] + [b] + blocks[k + 1..];
    assert given[..k] == blocks[..k] && given[k] == Block(b.addr, need, false);
    if b.size == need {
      assert given[k + 1..] == blocks[k + 1..];
    } else {
      assert given[k + 1] == Block(b.addr + need, b.size - need, true) && given[k + 2..] == blocks[k + 1..];
    }
  }

  // ---------- Two runs that end badly ----------

  const FREE_LIST_LEFT := KERNEL_HEAP_SIZE - 48

  lemma FirstOfOne(b: Block, need: int)
    requires b.free && b.size >= need
    ensures FirstFit([b], need) == 0 && Allocated([b], 0, need) == Carved(b, need)
  {
    assert [b][..0] == [] && [b][1..] == [];
  }

  lemma FirstOfTwo(a: Block, b: Block, need: int)
    requires !a.free && b.free && b.size >= need
    ensures FirstFit([a, b], need) == 1 && Allocated([a, b], 1, need) == [a] + Carved(b, need)
  {
    assert [a, b][..1] == [a] && [a, b][1..] == [b] && [a, b][2..] == [];
  }

  lemma FirstOfThree(a: Block, b: Block, c: Block, need: int)
    requires a.size < need && !b.free && c.free && c.size == need
    ensures FirstFit([a, b, c], need) == 2 && Allocated([a, b, c], 2, need) == [a, b, c.(free := false)]
  {
    assert [a, b, c][1..] == [b, c] && [b, c][1..] == [c] && [a, b, c][..2] == [a, b] && [a, b, c][3..] == [];
    assert FirstFit([c], need) == 0;
    assert FirstFit([b, c], need) == 1;
  }

  lemma FreedFirst(a: Block, b: Block, c: Block)
    requires !a.free && a.size >= FREE_HEADER_SIZE && !b.free && c.free
    ensures CanDo([a, b, c], Free(0)) && Do([a, b, c], Free(0)) == [a.(free := true), b, c]
  {
    assert [a, b, c][..0] == [] && [a, b, c][1..] == [b, c] && [b, c][1..] == [c] && [c][1..] == [];
    assert FreeOf([b, c]) == [] + FreeOf([c]) && FreeOf([c]) == [c] + [];
  }

  /** The whole heap given out. */
  lemma FullRun(base: int)
    ensures var whole := Block(base, KERNEL_HEAP_SIZE, true);
      var states := [[whole], [whole.(free := false)]];
      IsRun(states, [Alloc(KERNEL_HEAP_SIZE - 8)]) && FreeOf(states[1]) == []
  {
    var whole := Block(base, KERNEL_HEAP_SIZE, true);
    FirstOfOne(whole, KERNEL_HEAP_SIZE);
    assert [whole.(free := false)][1..] == [];
    var states := [[whole], [whole.(free := false)]];
    assert RunStep(states, [Alloc(KERNEL_HEAP_SIZE - 8)], 0);
  }

  const LOWER_FREE_OPS := [Alloc(16), Alloc(16), Free(0), Alloc(FREE_LIST_LEFT - 8)]

  /** The calls one by one: what is given back is what the first call gave out. */
  predicate FourSteps(states: seq<seq<Block>>) {
    && |states| == 5
    && CanDo(states[0], Alloc(16)) && states[1] == Do(states[0], Alloc(16))
    && CanDo(states[1], Alloc(16)) && states[2] == Do(states[1], Alloc(16))
    && CanDo(states[2], Free(0)) && states[3] == Do(states[2], Free(0))
    && CanDo(states[3], Alloc(FREE_LIST_LEFT - 8)) && states[4] == Do(states[3], Alloc(FREE_LIST_LEFT - 8))
    && Subject(states[0], Alloc(16)).addr == states[2][0].addr
    && |states[4]| > 1 && Subject(states[1], Alloc(16)).addr == states[4][1].addr
  }

  /** Four calls that leave one free block, below two live ones. */
  lemma LowerFreeRun(base: int) returns (states: seq<seq<Block>>)
    ensures |states| == 5 && states[0] == [Block(base, KERNEL_HEAP_SIZE, true)]
    ensures IsRun(states, LOWER_FREE_OPS)
    ensures var steps := FourSteps(states); steps
    ensures states[4] ==
      [Block(base, 24, true), Block(base + 24, 24, false), Block(base + 48, FREE_LIST_LEFT, false)]
  {
    var a, b, c := Block(base, 24, false), Block(base + 24, 24, false), Block(base + 48, FREE_LIST_LEFT, true);
    var whole, rest := Block(base, KERNEL_HEAP_SIZE, true), Block(base + 24, KERNEL_HEAP_SIZE - 24, true);
    var ops := LOWER_FREE_OPS;
    states := [[whole], [a, rest], [a, b, c], [a.(free := true), b, c], [a.(free := true), b, c.(free := false)]];
    FirstOfOne(whole, 24);
    assert RunStep(states, ops, 0);
    FirstOfTwo(a, rest, 24);
    assert RunStep(states, ops, 1);
    FreedFirst(a, b, c);
    assert RunStep(states, ops, 2);
    FirstOfThree(a.(free := true), b, c, FREE_LIST_LEFT);
    assert RunStep(states, ops, 3);
    AllSteps(states, ops);
  }

  /** Two requests of 8 bytes. */
  lemma ShortRun(base: int) returns (states: seq<seq<Block>>)
    ensures |states| == 3 && states[0] == [Block(base, KERNEL_HEAP_SIZE, true)]
    ensures var steps := TwoSteps(states); steps
    ensures states[2] ==
      [Block(base, 16, false), Block(base + 16, 16, false), Block(base + 32, KERNEL_HEAP_SIZE - 32, true)]
  {
    var a, b, c := Block(base, 16, false), Block(base + 16, 16, false), Block(base + 32, KERNEL_HEAP_SIZE - 32, true);
    var whole, rest := Block(base, KERNEL_HEAP_SIZE, true), Block(base + 16, KERNEL_HEAP_SIZE - 16, true);
    states := [[whole], [a, rest], [a, b, c]];
    FirstOfOne(whole, 16);
    FirstOfTwo(a, rest, 16);
  }

  predicate TwoSteps(states: seq<seq<Block>>) {
    && |states| == 3
    && CanDo(states[0], Alloc(8)) && states[1] == Do(states[0], Alloc(8))
    && CanDo(states[1], Alloc(8)) && states[2] == Do(states[1], Alloc(8))
    && |states[2]| > 0 && Subject(states[0], Alloc(8)).addr == states[2][0].addr
  }

  lemma AllSteps(states: seq<seq<Block>>, ops: seq<Op>)
    requires |ops| == 4 && |states| == 5
    requires RunStep(states, ops, 0) && RunStep(states, ops, 1) && RunStep(states, ops, 2) && RunStep(states, ops, 3)
    ensures IsRun(states, ops)
  {
  }
}
