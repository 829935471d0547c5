/** The physical page allocator of src/mm/mm.c, in the bitmap build that include/config.h selects:
    one byte of `page_bitmap` per page, of which only bit 0 is ever used. */
module FrameAllocator {
  import opened ByteBits
  import opened PageTables

  const LOW_MEMORY := 0x40_0000
  const MM_NUM_OF_PAGES := 0xF_DC00
  const SIZEOF_CHAR := 1

  function PageAt(i: nat): int {
    LOW_MEMORY + PAGE_SIZE * i
  }

  ghost function PagesBelow(n: nat): set<int> {
    if n == 0 then {} else PagesBelow(n - 1) + {PageAt(n - 1)}
  }

  lemma {:induction false} PageIndex(n: nat, a: int) returns (i: nat)
    requires a in PagesBelow(n)
    ensures i < n && a == PageAt(i)
  {
    i := n - 1;
    if a != PageAt(i) {
      i := PageIndex(n - 1, a);
    }
  }

  lemma {:induction false} PageIsBelow(n: nat, i: nat)
    requires i < n
    ensures PageAt(i) in PagesBelow(n)
  {
    if i < n - 1 {
      PageIsBelow(n - 1, i);
    }
  }

  /** The bits tell which pages are in use: bit 0 of byte `i` is set exactly for the used ones. */
  ghost predicate Marks(bits: seq<bv8>, used: set<int>, free: set<int>) {
    && used !! free
    && used + free == PagesBelow(|bits|)
    && forall i {:trigger bits[i]} | 0 <= i < |bits| :: PageAt(i) in used <==> bits[i] & 1 != 0
  }

  /** The first `n` bytes are marked. */
  ghost predicate AllTaken(bits: seq<bv8>, n: nat) {
    n <= |bits| && forall k | 0 <= k < n :: bits[k] & 1 != 0
  }

  lemma OneMoreTaken(bits: seq<bv8>, n: nat)
    requires AllTaken(bits, n) && n < |bits| && bits[n] & 1 != 0
    ensures var taken := AllTaken(bits, n + 1); taken
  {
  }

  lemma PageAtIsAddress(i: nat)
    requires i < MM_NUM_OF_PAGES
    ensures PageAddress(PageAt(i))
  {
    assert PageAt(i) == PAGE_SIZE * (1024 + i);
  }

  /** Setting a clear bit moves one page from the free pages to the used ones. */
  lemma TakePage(bits: seq<bv8>, used: set<int>, free: set<int>, i: nat)
    requires i < |bits| && bits[i] & 1 == 0 && Marks(bits, used, free)
    ensures PageAt(i) in free
    ensures Marks(bits[i := bits[i] | 1], used + {PageAt(i)}, free - {PageAt(i)})
  {
    PageIsBelow(|bits|, i);
    assert (bits[i] | 1) & 1 == 1;
    assert (used + {PageAt(i)}) + (free - {PageAt(i)}) == used + free;
  }

  /** The first clear bit is the lowest free page. */
  lemma LowestFree(bits: seq<bv8>, used: set<int>, free: set<int>, i: nat)
    requires Marks(bits, used, free)
    requires AllTaken(bits, i)
    ensures forall a | a in free :: PageAt(i) <= a
    ensures i == |bits| ==> free == {}
  {
    forall a | a in free
      ensures PageAt(i) <= a && i < |bits|
    {
      var k := PageIndex(|bits|, a);
      assert bits[k] & 1 == 0;
    }
  }

  lemma TakeFirst(bits: seq<bv8>, used: set<int>, free: set<int>, i: nat)
    requires i < |bits| <= MM_NUM_OF_PAGES && bits[i] & 1 == 0 && Marks(bits, used, free)
    requires AllTaken(bits, i)
    ensures PageAddress(PageAt(i)) && PageAt(i) in free && PageAt(i) !in used
    ensures forall a | a in free :: PageAt(i) <= a
    ensures var marked := Marks(bits[i := bits[i] | 1], used + {PageAt(i)}, free - {PageAt(i)}); marked
  {
    LowestFree(bits, used, free, i);
    TakePage(bits, used, free, i);
    PageAtIsAddress(i);
  }

  /** `page_bitmap[i] |= (1 << j)`, for the one bit there is. */
  method WithLowBit(b: bv8, j: nat) returns (c: bv8)
    requires j < SIZEOF_CHAR
    ensures c == b | 1
  {
    c := WithBit(b, j);
    LowestSet(b, c);
  }

  lemma FullByte(b: bv8)
    ensures b & 255 == 255 ==> b & 1 != 0
  {
  }

  /** Every page of the allocator is there. */
  ghost predicate Backed(memory: Memory) {
    forall i | 0 <= i < MM_NUM_OF_PAGES :: PageAt(i) in memory
  }

  lemma StillBacked(memory: Memory, a: int, page: Page)
    requires Backed(memory)
    ensures Backed(memory[a := page])
  {
  }

  lemma NoneMarked(bits: seq<bv8>)
    requires forall i | 0 <= i < |bits| :: bits[i] == 0
    ensures var marked := Marks(bits, {}, PagesBelow(|bits|)); marked
  {
  }

  lemma {:induction false} HowManyPages(n: nat)
    ensures |PagesBelow(n)| == n
  {
    if n > 0 {
      HowManyPages(n - 1);
      if PageAt(n - 1) in PagesBelow(n - 1) {
        var i := PageIndex(n - 1, PageAt(n - 1));
        assert false;
      }
    }
  }

  /** With no page in use as many are free as there are. */
  lemma AllFree(ram: PhysicalMemory)
    requires ram.Valid() && ram.used == {}
    ensures |ram.free| == MM_NUM_OF_PAGES
  {
    HowManyPages(|ram.page_bitmap[..]|);
    assert ram.free == ram.used + ram.free;
  }

  /** The address that the source computes from byte `i` and bit `j`. */
  lemma PageOf(i: nat, j: nat)
    requires j < SIZEOF_CHAR
    ensures LOW_MEMORY + (PAGE_SIZE * (i * SIZEOF_CHAR) + j) == PageAt(i)
  {
    assert i * SIZEOF_CHAR == i;
  }

  class PhysicalMemory {
    const page_bitmap: array<bv8>
    var memory: Memory

    /** The pages in use and the free ones, by their bits. */
    ghost var used: set<int>
    ghost var free: set<int>

    ghost predicate Valid()
      reads this, page_bitmap
    {
      var marked, backed := Marks(page_bitmap[..], used, free), Backed(memory);
      page_bitmap.Length == MM_NUM_OF_PAGES && marked && backed
    }

    /** All pages free, as at boot. */
    constructor (initial: Memory)
      requires Backed(initial)
      ensures Valid() && fresh(page_bitmap) && memory == initial && used == {}
    {
      page_bitmap := new bv8[MM_NUM_OF_PAGES](_ => 0);
      memory := initial;
      new;
      used, free := {}, PagesBelow(page_bitmap.Length);
      NoneMarked(page_bitmap[..]);
    }

    method MarkByte(i: nat, j: nat)
      requires i < page_bitmap.Length && j < SIZEOF_CHAR
      modifies page_bitmap
      ensures page_bitmap[..] == old(page_bitmap[..])[i := old(page_bitmap[i]) | 1]
    {
      var b := WithLowBit(page_bitmap[i], j);
      page_bitmap[i] := b;
    }

    /** The allocation itself: set bit `j` of byte `i`, and zero the page it stands for. */
    method Claim(i: nat, j: nat) returns (new_page: int)
      requires Valid() && i < MM_NUM_OF_PAGES && j < SIZEOF_CHAR && page_bitmap[i] & 1 == 0
      requires AllTaken(page_bitmap[..], i)
      modifies this, page_bitmap
      ensures Valid()
      ensures PageAddress(new_page) && new_page in old(free) && new_page !in old(used)
      ensures forall a | a in old(free) :: new_page <= a
      ensures memory == old(memory)[new_page := ZeroWords()]
      ensures free == old(free) - {new_page} && used == old(used) + {new_page}
    {
      TakeFirst(page_bitmap[..], used, free, i);
      PageOf(i, j);
      StillBacked(memory, PageAt(i), ZeroWords());
      MarkByte(i, j);
      new_page := LOW_MEMORY + (PAGE_SIZE * (i * SIZEOF_CHAR) + j);
      memory := memory[new_page := ZeroWords()];
      used, free := used + {new_page}, free - {new_page};
    }

    /** The inner loop of `get_next_free_page`, over the bits of byte `i`. */
    method ClaimIn(i: nat) returns (new_page: int)
      requires Valid() && i < MM_NUM_OF_PAGES && AllTaken(page_bitmap[..], i)
      modifies this, page_bitmap
      ensures Valid()
      ensures new_page == 0 ==> unchanged(this) && unchanged(page_bitmap) && page_bitmap[i] & 1 != 0
      ensures new_page != 0 ==>
        && PageAddress(new_page) && new_page in old(free) && new_page !in old(used)
        && (forall a | a in old(free) :: new_page <= a)
        && memory == old(memory)[new_page := ZeroWords()]
        && free == old(free) - {new_page} && used == old(used) + {new_page}
    {
      var byte := page_bitmap[i];
      var j := 0;
      while j < SIZEOF_CHAR
        invariant 0 <= j <= 1
        invariant j == 0 ==> byte == page_bitmap[i]
        invariant j == 1 ==> page_bitmap[i] & 1 != 0
        invariant unchanged(this) && unchanged(page_bitmap)
      {
        if byte & 1 == 0 {
          new_page := Claim(i, j);
          return;
        }
        byte := byte >> 1;
        j := j + 1;
      }
      new_page := 0;
    }

    /** `get_next_free_page`: the lowest free page, zeroed and marked, or 0 when there is none. */
    method GetNextFreePage() returns (new_page: int)
      requires Valid()
      modifies this, page_bitmap
      ensures Valid()
      ensures new_page == 0 <==> old(free) == {}
      ensures new_page == 0 ==> memory == old(memory) && used == old(used) && free == old(free)
      ensures new_page != 0 ==>
        && PageAddress(new_page) && new_page in old(free) && new_page !in old(used)
        && (forall a | a in old(free) :: new_page <= a)
        && memory == old(memory)[new_page := ZeroWords()]
        && free == old(free) - {new_page} && used == old(used) + {new_page}
    {
      var i := 0;
      while i < MM_NUM_OF_PAGES / SIZEOF_CHAR
        invariant 0 <= i <= MM_NUM_OF_PAGES
        invariant AllTaken(page_bitmap[..], i)
        invariant unchanged(this) && unchanged(page_bitmap)
      {
        FullByte(page_bitmap[i]);
        if page_bitmap[i] & 255 == 255 {
          OneMoreTaken(page_bitmap[..], i);
          i := i + 1;
          continue;
        }
        new_page := ClaimIn(i);
        if new_page != 0 {
          return;
        }
        OneMoreTaken(page_bitmap[..], i);
        i := i + 1;
      }
      LowestFree(page_bitmap[..], used, free, MM_NUM_OF_PAGES);
      new_page := 0;
    }
  }
}
