/** The page-table format of src/mm/paging.c, on values.

    A table lives in an ordinary page of physical memory.  `Represents` says that a set of pages is
    the four-level tree for a flat map from virtual pages to frames, and the lemmas say what one
    write to one table entry does to that map. */
module PageTables {
  import opened Bits
  import opened Wrappers

  const PAGE_SIZE := 4096
  const ENTRIES := 512

  /** `MM_TYPE_PAGE_TABLE` and `MMU_PTE_FLAGS` of include/arm/mmu.h. */
  const TABLE_FLAGS := 3
  const PTE_FLAGS := 0x447

  const WORDS := 0x1_0000_0000_0000_0000

  type Word = w: int | 0 <= w < WORDS

  function ZeroWords(): (p: seq<Word>)
    ensures |p| == ENTRIES && forall i | 0 <= i < ENTRIES :: p[i] == 0
  {
    seq(ENTRIES, _ => 0)
  }

  /** The 512 words of one page of physical memory. */
  type Page = p: seq<Word> | |p| == ENTRIES ghost witness ZeroWords()

  type Index = i: int | 0 <= i < ENTRIES

  /** Physical memory by page address. */
  type Memory = map<int, Page>

  /** An address of a page: aligned, not null, and within the 32-bit physical range. */
  predicate PageAddress(a: int) {
    0 < a < 0x1_0000_0000 && a % PAGE_SIZE == 0
  }

  // ---------- Virtual addresses ----------

  /** The four table indices of a virtual address, bits 47 to 12. */
  datatype Vpn = Vpn(pgd: Index, pud: Index, pmd: Index, pte: Index)

  /** 2 to the power PAGE_SHIFT, PMD_SHIFT, PUD_SHIFT and PGD_SHIFT: a right shift divides by these. */
  const PTE_UNIT := 0x1000
  const PMD_UNIT := 0x20_0000
  const PUD_UNIT := 0x4000_0000
  const PGD_UNIT := 0x80_0000_0000

  /** `(virt_adr >> shift) & (PTRS_PER_TABLE - 1)`, where `unit` is 2 to the power `shift`. */
  function IndexAt(va: Word, unit: nat): Index
    requires unit > 0
  {
    (va / unit) % ENTRIES
  }

  function VpnOf(va: Word): Vpn {
    Vpn(IndexAt(va, PGD_UNIT), IndexAt(va, PUD_UNIT), IndexAt(va, PMD_UNIT), IndexAt(va, PTE_UNIT))
  }

  /** Two addresses select the same four entries exactly when they agree on bits 47 to 12. */
  lemma SameVpn(a: Word, b: Word)
    ensures VpnOf(a) == VpnOf(b) <==> (a / 0x1000) % 0x10_0000_0000 == (b / 0x1000) % 0x10_0000_0000
  {
    VpnNumber(a);
    VpnNumber(b);
    SameDigits(VpnOf(a), VpnOf(b));
  }

  function Number(v: Vpn): nat {
    ((v.pgd * ENTRIES + v.pud) * ENTRIES + v.pmd) * ENTRIES + v.pte
  }

  lemma SameDigits(v: Vpn, w: Vpn)
    ensures Number(v) == Number(w) ==> v == w
  {
    if Number(v) == Number(w) {
      LastDigit((v.pgd * ENTRIES + v.pud) * ENTRIES + v.pmd, v.pte, (w.pgd * ENTRIES + w.pud) * ENTRIES + w.pmd, w.pte);
      LastDigit(v.pgd * ENTRIES + v.pud, v.pmd, w.pgd * ENTRIES + w.pud, w.pmd);
      LastDigit(v.pgd, v.pud, w.pgd, w.pud);
    }
  }

  lemma LastDigit(a: nat, x: Index, b: nat, y: Index)
    requires a * ENTRIES + x == b * ENTRIES + y
    ensures a == b && x == y
  {
  }

  /** The indices are the digits of the page number in base 512, the directory's first. */
  lemma VpnNumber(a: Word)
    ensures var v := VpnOf(a);
      a / 0x1000 % 0x10_0000_0000 == v.pgd * 0x800_0000 + v.pud * 0x4_0000 + v.pmd * 512 + v.pte
  {
    var n := a / 0x1000;
    assert a / 0x20_0000 == n / 512;
    assert a / 0x4000_0000 == (n / 512) / 512;
    assert a / 0x80_0000_0000 == ((n / 512) / 512) / 512;
    assert n % 0x10_0000_0000 == n - (n / 0x10_0000_0000) * 0x10_0000_0000;
    assert n / 0x10_0000_0000 == (((n / 512) / 512) / 512) / 512;
  }

  // ---------- The tree ----------

  /** A table, named by the indices that lead to it from the page directory. */
  datatype TableId =
    | Pgd
    | Pud(i: Index)
    | Pmd(i: Index, j: Index)
    | Pte(i: Index, j: Index, k: Index)

  function Child(t: TableId, n: Index): (c: TableId)
    requires !t.Pte?
    ensures c != Pgd && Parent(c) == t
  {
    match t
    case Pgd => Pud(n)
    case Pud(i) => Pmd(i, n)
    case Pmd(i, j) => Pte(i, j, n)
  }

  function Parent(t: TableId): TableId
    requires t != Pgd
  {
    match t
    case Pud(_) => Pgd
    case Pmd(i, _) => Pud(i)
    case Pte(i, j, _) => Pmd(i, j)
  }

  function PteOf(v: Vpn): TableId {
    Pte(v.pgd, v.pud, v.pmd)
  }

  /** The four tables on the way to a virtual page. */
  function TablesFor(v: Vpn): (s: set<TableId>)
    ensures |s| == 4
  {
    {Pgd, Pud(v.pgd), Pmd(v.pgd, v.pud), PteOf(v)}
  }

  /** The descriptor of the next table, and of a mapped page.  Without a free page the source stores the descriptor
      of a table at address 0. */
  function TableEntry(a: int): Word
    requires a == 0 || PageAddress(a)
  {
    a + TABLE_FLAGS
  }

  function PageEntry(a: int): Word
    requires PageAddress(a)
  {
    a + PTE_FLAGS
  }

  const PAGE_MASK := 0xffff_ffff_ffff_f000

  /** `w & PAGE_MASK`. */
  function PageBase(w: Word): Word {
    w - w % PAGE_SIZE
  }

  /** The bits that the source sets and masks, on whole numbers: the or with the flags is an addition, the mask drops
      the offset, and it gives back the address of the table that was stored. */
  lemma TableFlagsAdd(a: int)
    requires a == 0 || PageAddress(a)
    ensures Or(a, TABLE_FLAGS) == TableEntry(a) == a + 3 && And(TableEntry(a), PAGE_MASK) == a
  {
    Flags(a, TABLE_FLAGS);
    Masks(TableEntry(a));
    OffsetOf(a, TABLE_FLAGS);
  }

  lemma PageFlagsAdd(a: int)
    requires PageAddress(a)
    ensures Or(a, PTE_FLAGS) == PageEntry(a) && And(PageEntry(a), PAGE_MASK) == a
  {
    Flags(a, PTE_FLAGS);
    Masks(PageEntry(a));
    OffsetOf(a, PTE_FLAGS);
  }

  lemma OffsetOf(a: int, flags: nat)
    requires a % PAGE_SIZE == 0 && flags < PAGE_SIZE
    ensures (a + flags) % PAGE_SIZE == flags
  {
  }

  /** `w & PAGE_MASK`, and `(virt_adr >> shift) & (PTRS_PER_TABLE - 1)`. */
  lemma MaskIsBase(w: Word)
    ensures And(w, PAGE_MASK) == PageBase(w)
  {
    Masks(w);
  }

  function Shifted(va: Word, unit: nat): nat
    requires unit > 0
  {
    va / unit
  }

  lemma MaskIsIndex(va: Word, unit: nat)
    requires unit > 0
    ensures And(Shifted(va, unit), ENTRIES - 1) == IndexAt(va, unit)
  {
    Masks(Shifted(va, unit));
  }

  /** The tables at the addresses in `tables` hold exactly the tree for `flat`. */
  ghost predicate Represents(memory: Memory, tables: map<TableId, int>, flat: map<Vpn, int>) {
    && (forall t | t in tables :: PageAddress(tables[t]) && tables[t] in memory)
    && (forall v | v in flat :: PageAddress(flat[v]) && PteOf(v) in tables)
    && (forall t | t in tables :: t == Pgd || Parent(t) in tables)
    && (forall t, n: Index {:trigger memory[tables[t]][n]} | t in tables ::
          memory[tables[t]][n] == EntryFor(tables, flat, t, n))
  }

  /** No page is two tables: the tree is not shared. */
  ghost predicate Unshared(tables: map<TableId, int>) {
    forall t, u | t in tables && u in tables && t != u :: tables[t] != tables[u]
  }

  /** What the tree holds at entry `n` of table `t`. */
  ghost function EntryFor(tables: map<TableId, int>, flat: map<Vpn, int>, t: TableId, n: Index): Word
    requires forall u | u in tables :: PageAddress(tables[u])
    requires forall v | v in flat :: PageAddress(flat[v])
  {
    if t.Pte? then
      var v := Vpn(t.i, t.j, t.k, n);
      if v in flat then PageEntry(flat[v]) else 0
    else
      var c := Child(t, n);
      if c in tables then TableEntry(tables[c]) else 0
  }

  /** A table that holds the descriptor of a table at address 0 belongs to no tree, for whatever map. */
  lemma NullTable(memory: Memory, tables: map<TableId, int>, flat: map<Vpn, int>, t: TableId, n: Index)
    requires t in tables && !t.Pte? && tables[t] in memory && memory[tables[t]][n] == TableEntry(0)
    ensures !Represents(memory, tables, flat)
  {
    if Represents(memory, tables, flat) {
      assert false;
    }
  }

  // ---------- The hardware walk ----------

  /** One step of a VMSAv8-64 walk with a 4 KB granule (Arm Architecture Reference Manual, section
      D8.3): bits 1:0 are 0b11 for a table or page descriptor, whose address is bits 47:12. */
  function Next(w: Word): Option<int> {
    if w % 4 == 3 then Some((w % 0x1_0000_0000_0000) - w % PAGE_SIZE) else None
  }

  /** The last step, for an access from EL0 (section D8.4): the access flag, bit 10, is set, and the permissions in bits
      7:6 are 0b01, which allow it to read and to write. */
  function Leaf(w: Word): Option<int> {
    if w / 0x400 % 2 == 1 && w / 0x40 % 4 == 1 then Next(w) else None
  }

  function Lookup(memory: Memory, table: Option<int>, n: Index): Option<int> {
    if table.Some? && table.value in memory then Next(memory[table.value][n]) else None
  }

  function LookupLeaf(memory: Memory, table: Option<int>, n: Index): Option<int> {
    if table.Some? && table.value in memory then Leaf(memory[table.value][n]) else None
  }

  /** The frame that the walk from page directory `pgd` reaches, or `None` for a fault. */
  function Walk(memory: Memory, pgd: int, v: Vpn): Option<int> {
    var pud := Lookup(memory, Some(pgd), v.pgd);
    var pmd := Lookup(memory, pud, v.pud);
    var pte := Lookup(memory, pmd, v.pmd);
    LookupLeaf(memory, pte, v.pte)
  }

  /** The walk for a 64-bit address, as the processor does it from the directory in TTBR0: the four levels are indexed
      by bits 47:39, 38:30, 29:21 and 20:12. */
  function HardwareWalk(memory: Memory, ttbr0: int, va: Word): Option<int> {
    var level1 := Lookup(memory, Some(ttbr0), va / 0x80_0000_0000 % 0x200);
    var level2 := Lookup(memory, level1, va / 0x4000_0000 % 0x200);
    var level3 := Lookup(memory, level2, va / 0x20_0000 % 0x200);
    LookupLeaf(memory, level3, va / 0x1000 % 0x200)
  }

  /** The indices that the kernel uses are the processor's. */
  lemma HardwareWalks(memory: Memory, ttbr0: int, va: Word)
    ensures HardwareWalk(memory, ttbr0, va) == Walk(memory, ttbr0, VpnOf(va))
  {
  }

  lemma AlignedPlus(a: int, flags: nat)
    requires PageAddress(a) && flags < PAGE_SIZE && flags % 4 == 3
    ensures (a + flags) % PAGE_SIZE == flags && (a + flags) % 4 == 3
    ensures (a + flags) % 0x1_0000_0000_0000 == a + flags
  {
    var q := a / PAGE_SIZE;
    assert a + flags == q * PAGE_SIZE + flags == 4 * (q * 1024 + flags / 4) + 3;
  }

  lemma NextOfEntry(a: int)
    requires PageAddress(a)
    ensures Next(TableEntry(a)) == Some(a) == Leaf(PageEntry(a))
    ensures PageBase(TableEntry(a)) == a
  {
    AlignedPlus(a, 3);
    AlignedPlus(a, 0x447);
    LeafBits(a);
  }

  /** The flags of a mapped page, bit by bit: a page, attributes 1 (`MT_NORMAL_NC`), for EL0 to read and write, not
      shareable, and accessed; no other bit below the address is set. */
  lemma LeafBits(a: int)
    requires PageAddress(a)
    ensures var w := PageEntry(a);
      && w % 4 == 3 && w / 4 % 8 == 1 && w / 0x20 % 2 == 0 && w / 0x40 % 4 == 1 && w / 0x100 % 4 == 0
      && w / 0x400 % 2 == 1 && w / 0x800 % 2 == 0 && w / 0x1000 == a / 0x1000
  {
    var q, w := a / PAGE_SIZE, PageEntry(a);
    LowBits(q, w);
    Bit5(q, w);
    Bits7And6(q, w);
    Bits9And8(q, w);
    Bit10(q, w);
    Bit11(q, w);
  }

  lemma LowBits(q: nat, w: nat)
    requires w == 0x1000 * q + 0x447
    ensures w % 4 == 3 && w / 4 % 8 == 1 && w / 0x1000 == q
  {
    assert w == 4 * (8 * (128 * q + 34) + 1) + 3;
    assert w / 4 == 8 * (128 * q + 34) + 1;
  }

  lemma Bit5(q: nat, w: nat)
    requires w == 0x1000 * q + 0x447
    ensures w / 0x20 % 2 == 0
  {
    assert w == 0x20 * (128 * q + 34) + 7;
    assert w / 0x20 == 2 * (64 * q + 17);
  }

  lemma Bits7And6(q: nat, w: nat)
    requires w == 0x1000 * q + 0x447
    ensures w / 0x40 % 4 == 1
  {
    assert w == 0x40 * (64 * q + 17) + 7;
    assert w / 0x40 == 4 * (16 * q + 4) + 1;
  }

  lemma Bits9And8(q: nat, w: nat)
    requires w == 0x1000 * q + 0x447
    ensures w / 0x100 % 4 == 0
  {
    assert w == 0x100 * (16 * q + 4) + 0x47;
    assert w / 0x100 == 4 * (4 * q + 1);
  }

  lemma Bit10(q: nat, w: nat)
    requires w == 0x1000 * q + 0x447
    ensures w / 0x400 % 2 == 1
  {
    Quotient1024(q, w);
    Odd(q, w / 0x400);
  }

  lemma Quotient1024(q: nat, w: nat)
    requires w == 0x1000 * q + 0x447
    ensures w / 0x400 == 4 * q + 1
  {
    assert w == 0x400 * (4 * q + 1) + 0x47;
  }

  lemma Odd(q: nat, x: nat)
    requires x == 4 * q + 1
    ensures x % 2 == 1
  {
    assert 2 * (2 * q) <= x < 2 * (2 * q) + 2;
    assert x / 2 == 2 * q;
  }

  lemma Bit11(q: nat, w: nat)
    requires w == 0x1000 * q + 0x447
    ensures w / 0x800 % 2 == 0
  {
    assert w == 0x800 * (2 * q) + 0x447;
    assert w / 0x800 == 2 * q;
  }

  /** The walk computes the flat map. */
  lemma WalkIsFlatMap(memory: Memory, tables: map<TableId, int>, flat: map<Vpn, int>, v: Vpn)
    requires Represents(memory, tables, flat) && Pgd in tables
    ensures Walk(memory, tables[Pgd], v) == if v in flat then Some(flat[v]) else None
  {
    LookupTable(memory, tables, flat, Pgd, v.pgd);
    if Pud(v.pgd) in tables {
      LookupTable(memory, tables, flat, Pud(v.pgd), v.pud);
      if Pmd(v.pgd, v.pud) in tables {
        LookupTable(memory, tables, flat, Pmd(v.pgd, v.pud), v.pmd);
        if PteOf(v) in tables {
          assert memory[tables[PteOf(v)]][v.pte] == EntryFor(tables, flat, PteOf(v), v.pte);
          if v in flat {
            NextOfEntry(flat[v]);
          }
        }
      } else {
        assert Parent(PteOf(v)) == Pmd(v.pgd, v.pud);
      }
    } else {
      assert Parent(Pmd(v.pgd, v.pud)) == Pud(v.pgd) && Parent(PteOf(v)) == Pmd(v.pgd, v.pud);
    }
  }

  lemma LookupTable(memory: Memory, tables: map<TableId, int>, flat: map<Vpn, int>, t: TableId, n: Index)
    requires Represents(memory, tables, flat) && t in tables && !t.Pte?
    ensures Lookup(memory, Some(tables[t]), n) == if Child(t, n) in tables then Some(tables[Child(t, n)]) else None
  {
    assert memory[tables[t]][n] == EntryFor(tables, flat, t, n);
    if Child(t, n) in tables {
      NextOfEntry(tables[Child(t, n)]);
    }
  }

  // ---------- One write to one entry ----------

  /** A zeroed page linked at an empty entry adds one table and changes no mapping. */
  lemma LinkTable(memory: Memory, memory': Memory, tables: map<TableId, int>, flat: map<Vpn, int>, t: TableId,
          n: Index, page: int)
    requires Represents(memory, tables, flat)
    requires Unshared(tables) && t in tables && !t.Pte? && Child(t, n) !in tables
    requires PageAddress(page) && page !in tables.Values
    requires memory' == memory[page := ZeroWords()][tables[t] := memory[tables[t]][n := TableEntry(page)]]
    ensures Represents(memory', tables[Child(t, n) := page], flat)
  {
    var c := Child(t, n);
    var tables' := tables[c := page];
    forall u, m: Index | u in tables'
      ensures memory'[tables'[u]][m] == EntryFor(tables', flat, u, m)
    {
      if u == c {
        if u.Pte? {
          assert PteOf(Vpn(u.i, u.j, u.k, m)) == c;
        } else {
          assert Parent(Child(c, m)) == c;
        }
      } else {
        assert tables[u] in tables.Values;
        assert memory[tables[u]][m] == EntryFor(tables, flat, u, m);
        if !u.Pte? && Child(u, m) == c {
          assert u == t;
        }
      }
    }
  }

  /** The first table of a tree: a zeroed page directory. */
  lemma NewDirectory(memory: Memory, page: int)
    requires PageAddress(page)
    ensures Represents(memory[page := ZeroWords()], map[Pgd := page], map[])
  {
  }

  /** Writing a last-level entry updates the flat map at that page only. */
  lemma LinkPage(memory: Memory, memory': Memory, tables: map<TableId, int>, flat: map<Vpn, int>, v: Vpn, frame: int)
    requires Represents(memory, tables, flat)
    requires Unshared(tables) && PteOf(v) in tables && PageAddress(frame)
    requires memory' == memory[tables[PteOf(v)] := memory[tables[PteOf(v)]][v.pte := PageEntry(frame)]]
    ensures Represents(memory', tables, flat[v := frame])
  {
    var flat' := flat[v := frame];
    forall u, m: Index | u in tables
      ensures memory'[tables[u]][m] == EntryFor(tables, flat', u, m)
    {
      assert memory[tables[u]][m] == EntryFor(tables, flat, u, m);
    }
  }

  /** Pages outside the tree do not matter to it. */
  lemma OtherPages(memory: Memory, memory': Memory, tables: map<TableId, int>, flat: map<Vpn, int>)
    requires Represents(memory, tables, flat)
    requires forall t | t in tables :: tables[t] in memory' && memory'[tables[t]] == memory[tables[t]]
    ensures Represents(memory', tables, flat)
  {
    forall u, m: Index | u in tables
      ensures memory'[tables[u]][m] == EntryFor(tables, flat, u, m)
    {
      assert memory[tables[u]][m] == EntryFor(tables, flat, u, m);
    }
  }
}
