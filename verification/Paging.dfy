/** src/mm/paging.c: building page tables in physical memory, forking an address space, and demand paging. */
module Paging {
  import opened Bits
  import opened Collections
  import opened PageTables
  import opened FrameAllocator
  import opened AddressSpaces

  /** A task's `mm_t`.  The arrays are inline in the C structure, so they are not shared. */
  class AddressSpace {
    var pagedirectory: int
    var userpages_count: int
    var userpages: seq<UserPage>
    var kernelpages_count: int
    var kernelpages: seq<int>

    /** What the fields hold.  `kernelpages[0]` is never used: the code increments the count before it stores. */
    ghost var space: Space

    ghost predicate Valid()
      reads this
    {
      && |userpages| == MAX_PROCESS_PAGES == |kernelpages|
      && userpages_count <= MAX_PROCESS_PAGES
      && kernelpages_count < MAX_PROCESS_PAGES
      && space.pgd == pagedirectory
      && |space.user| == userpages_count
      && |space.kernel| == kernelpages_count
      && (forall k {:trigger space.user[k]} | 0 <= k < userpages_count :: userpages[k] == space.user[k])
      && (forall k {:trigger space.kernel[k]} | 0 <= k < kernelpages_count :: kernelpages[k + 1] == space.kernel[k])
    }

    constructor ()
      ensures Valid() && space == Space(0, [], [], map[])
    {
      pagedirectory, userpages_count, kernelpages_count := 0, 0, 0;
      userpages := seq(MAX_PROCESS_PAGES, _ => UserPage(0, 0));
      kernelpages := seq(MAX_PROCESS_PAGES, _ => 0);
      space := Space(0, [], [], map[]);
    }

    /** `kernelpages[++kernelpages_count] = page`. */
    method RecordTable(page: int)
      requires Valid() && kernelpages_count + 1 < MAX_PROCESS_PAGES
      modifies this`kernelpages, this`kernelpages_count, this`space
      ensures Valid() && space == old(space).(kernel := old(space).kernel + [page])
    {
      kernelpages_count := kernelpages_count + 1;
      kernelpages := kernelpages[kernelpages_count := page];
      space := space.(kernel := space.kernel + [page]);
    }

    /** `userpages[userpages_count++] = p`. */
    method RecordPage(p: UserPage)
      requires Valid() && userpages_count < MAX_PROCESS_PAGES
      modifies this`userpages, this`userpages_count, this`space
      ensures Valid() && space == old(space).(user := old(space).user + [p])
    {
      userpages := userpages[userpages_count := p];
      userpages_count := userpages_count + 1;
      space := space.(user := space.user + [p]);
    }
  }

  // ---------- The steps of map_page, on values ----------

  /** Physical memory and its pages in use and free. */
  datatype Ram = Ram(memory: Memory, used: set<int>, free: set<int>)

  ghost function RamOf(ram: PhysicalMemory): Ram
    reads ram
  {
    Ram(ram.memory, ram.used, ram.free)
  }

  /** Page `next` zeroed and linked at entry `n` of the table at page `table`. */
  function LinkedAt(memory: Memory, table: int, n: Index, next: int): Memory
    requires table in memory && PageAddress(next)
  {
    var zeroed := memory[next := ZeroWords()];
    zeroed[table := zeroed[table][n := TableEntry(next)]]
  }

  /** What one step of `map_page` does at entry `n` of the table at page `table`: follow the entry, or link and record
      the zeroed page `next` as table `c`.  Nothing checks that there is a page: without one, address 0 is linked and
      recorded, and the next step goes on there. */
  ghost predicate Level(s: Space, r: Ram, table: int, c: TableId, n: Index, s': Space, r': Ram, next: int)
    requires table in r.memory
  {
    var word := r.memory[table][n];
    if word != 0 then
      s' == s && r' == r && next == PageBase(word)
    else if r.free == {} then
      && next == 0 && s' == s.(kernel := s.kernel + [0])
      && r' == r.(memory := r.memory[table := r.memory[table][n := TableEntry(0)]])
    else
      && PageAddress(next) && next in r.free && next !in r.used
      && r' == Ram(LinkedAt(r.memory, table, n, next), r.used + {next}, r.free - {next})
      && s' == s.(tables := s.tables[c := next], kernel := s.kernel + [next])
  }

  /** What building tables may change: it takes free pages, one for each new table, and leaves every
      other page in use as it was. */
  ghost predicate Grows(s: Space, r: Ram, s': Space, r': Ram) {
    && s'.user == s.user
    && s.tables.Keys <= s'.tables.Keys
    && Keeps(r.memory, r'.memory, r.used - s.tables.Values)
    && r.used <= r'.used && r'.free <= r.free && r'.used !! r'.free
    && s'.tables.Values - s.tables.Values <= r.free
    && |r'.free| + |s'.tables.Keys| == |r.free| + |s.tables.Keys|
  }

  lemma GrowsOnce(s: Space, r: Ram, s': Space, r': Ram, table: int, c: TableId, page: int, zeroed: Page, linked: Page)
    requires r.used !! r.free && table in s.tables.Values && c !in s.tables && page in r.free
    requires r' == Ram(r.memory[page := zeroed][table := linked], r.used + {page}, r.free - {page})
    requires s' == s.(tables := s.tables[c := page], kernel := s.kernel + [page])
    ensures Grows(s, r, s', r')
  {
    ValuesGrow(s.tables, c, page);
    KeysGrow(s.tables, c, page);
  }

  lemma GrowsTwice(s: Space, r: Ram, s': Space, r': Ram, s'': Space, r'': Ram)
    requires r.used !! r.free
    requires Grows(s, r, s', r') && Grows(s', r', s'', r'')
    ensures Grows(s, r, s'', r'')
  {
    forall a | a in s''.tables.Values - s.tables.Values
      ensures a in r.free
    {
      if a in s'.tables.Values {
        assert a in s'.tables.Values - s.tables.Values;
      } else {
        assert a in s''.tables.Values - s'.tables.Values;
      }
    }
    forall a | a in r.used - s.tables.Values && a in r.memory
      ensures a in r''.memory && r''.memory[a] == r.memory[a]
    {
      assert a in r'.used - s'.tables.Values;
    }
  }

  /** What an entry of a table holds tells whether its child exists. */
  lemma ReadEntry(s: Space, r: Ram, t: TableId, n: Index)
    requires TreeOk(s, r.memory, r.used) && t in s.tables && !t.Pte?
    ensures s.tables[t] in r.memory && s.tables[t] in r.used
    ensures r.memory[s.tables[t]][n] == 0 <==> Child(t, n) !in s.tables
    ensures Child(t, n) in s.tables ==> PageBase(r.memory[s.tables[t]][n]) == s.tables[Child(t, n)]
    ensures |s.kernel| == |s.tables.Keys|
  {
    assert s.tables[t] in Owned(s);
    assert r.memory[s.tables[t]][n] == EntryFor(s.tables, Replay(s.user), t, n);
    if Child(t, n) in s.tables {
      NextOfEntry(s.tables[Child(t, n)]);
    }
  }

  lemma OneLevel(s: Space, r: Ram, t: TableId, n: Index, s': Space, r': Ram, next: int)
    requires TreeOk(s, r.memory, r.used) && r.used !! r.free
    requires t in s.tables && !t.Pte? && s.tables[t] in r.memory
    requires Child(t, n) in s.tables || r.free != {}
    requires Level(s, r, s.tables[t], Child(t, n), n, s', r', next)
    ensures TreeOk(s', r'.memory, r'.used) && Grows(s, r, s', r')
    ensures var c := Child(t, n);
            c in s'.tables && s'.tables[c] == next && s'.tables.Keys == s.tables.Keys + {c}
  {
    ReadEntry(s, r, t, n);
    var table := s.tables[t];
    if Child(t, n) !in s.tables {
      assert table in s.tables.Values;
      assert LinkedAt(r.memory, table, n, next) ==
             r.memory[next := ZeroWords()][table := r.memory[table][n := TableEntry(next)]];
      AddTable(s, r.memory, r'.memory, r.used, t, n, next);
      GrowsOnce(s, r, s', r', table, Child(t, n), next, ZeroWords(), r.memory[table][n := TableEntry(next)]);
    } else {
      assert s.tables.Keys == s.tables.Keys + {Child(t, n)};
    }
  }

  /** The arrays of the `mm_t` have room for the page and its tables. */
  ghost predicate FitsArrays(s: Space, v: Vpn) {
    |s.tables.Keys + TablesFor(v)| < MAX_PROCESS_PAGES && |s.user| < MAX_PROCESS_PAGES
  }

  /** There are fewer free pages than tables that `v` still lacks. */
  ghost predicate Starved(s: Space, r: Ram, v: Vpn) {
    |TablesFor(v) - s.tables.Keys| > |r.free|
  }

  /** The state between two steps: table `t` is on the way to `v`. */
  ghost predicate Ready(s: Space, r: Ram, v: Vpn, t: TableId) {
    TreeOk(s, r.memory, r.used) && r.used !! r.free && t in s.tables && t in TablesFor(v)
  }

  /** The index of `v` in table `t`. */
  function IndexIn(v: Vpn, t: TableId): Index {
    match t
    case Pgd => v.pgd
    case Pud(_) => v.pud
    case Pmd(_, _) => v.pmd
    case Pte(_, _, _) => v.pte
  }

  lemma OnTheWay(v: Vpn, t: TableId)
    requires t in TablesFor(v)
    ensures Pgd in TablesFor(v)
    ensures if t.Pte? then t == PteOf(v) else Child(t, IndexIn(v, t)) in TablesFor(v)
  {
  }

  lemma AfterLevel(s: Space, r: Ram, v: Vpn, t: TableId, s': Space, r': Ram, next: int)
    requires Ready(s, r, v, t) && !t.Pte? && s.tables[t] in r.memory
    requires Child(t, IndexIn(v, t)) in s.tables || r.free != {}
    requires Level(s, r, s.tables[t], Child(t, IndexIn(v, t)), IndexIn(v, t), s', r', next)
    ensures Ready(s', r', v, Child(t, IndexIn(v, t))) && s'.tables[Child(t, IndexIn(v, t))] == next
    ensures Grows(s, r, s', r') && s'.tables.Keys == s.tables.Keys + {Child(t, IndexIn(v, t))}
  {
    var c := Child(t, IndexIn(v, t));
    OnTheWay(v, t);
    OneLevel(s, r, t, IndexIn(v, t), s', r', next);
  }

  // ---------- The way down, with and without pages ----------

  datatype Point = Point(s: Space, r: Ram)

  ghost predicate Start(p: Point) {
    SpaceOk(p.s, p.r.memory, p.r.used) && p.r.used !! p.r.free
  }

  /** The tables from the directory down to `t`, and those of `v` below it. */
  function PathTo(t: TableId): set<TableId> {
    match t
    case Pgd => {Pgd}
    case Pud(i) => {Pgd, Pud(i)}
    case Pmd(i, j) => {Pgd, Pud(i), Pmd(i, j)}
    case Pte(i, j, k) => {Pgd, Pud(i), Pmd(i, j), Pte(i, j, k)}
  }

  function PathFrom(v: Vpn, t: TableId): set<TableId> {
    match t
    case Pgd => {Pud(v.pgd), Pmd(v.pgd, v.pud), PteOf(v)}
    case Pud(_) => {Pmd(v.pgd, v.pud), PteOf(v)}
    case Pmd(_, _) => {PteOf(v)}
    case Pte(_, _, _) => {}
  }

  function Below(t: TableId): nat {
    match t
    case Pgd => 3
    case Pud(_) => 2
    case Pmd(_, _) => 1
    case Pte(_, _, _) => 0
  }

  lemma PathParts(v: Vpn, t: TableId)
    requires t in TablesFor(v)
    ensures TablesFor(v) == PathTo(t) + PathFrom(v, t) && |PathFrom(v, t)| == Below(t)
    ensures !t.Pte? ==> Below(Child(t, IndexIn(v, t))) == Below(t) - 1
    ensures !t.Pte? ==> PathTo(Child(t, IndexIn(v, t))) == PathTo(t) + {Child(t, IndexIn(v, t))}
  {
    PathCovers(v, t);
    PathSize(v, t);
    PathLonger(t, IndexIn(v, t));
  }

  lemma PathCovers(v: Vpn, t: TableId)
    requires t in TablesFor(v)
    ensures TablesFor(v) == PathTo(t) + PathFrom(v, t)
  {
    forall c
      ensures c in TablesFor(v) <==> c in PathTo(t) + PathFrom(v, t)
    {
      match t
      case Pgd =>
      case Pud(_) =>
      case Pmd(_, _) =>
      case Pte(_, _, _) =>
    }
  }

  lemma PathSize(v: Vpn, t: TableId)
    ensures |PathFrom(v, t)| == Below(t)
  {
    match t
    case Pgd =>
    case Pud(_) =>
    case Pmd(_, _) =>
    case Pte(_, _, _) =>
  }

  lemma PathLonger(t: TableId, n: Index)
    ensures !t.Pte? ==> PathTo(Child(t, n)) == PathTo(t) + {Child(t, n)}
  {
    match t
    case Pgd =>
    case Pud(_) =>
    case Pmd(_, _) =>
    case Pte(_, _, _) =>
  }

  /** From `p` the tables down to `t` are there, the last of them at page `table`. */
  ghost predicate Reached(p: Point, q: Point, v: Vpn, t: TableId, table: int) {
    && Ready(q.s, q.r, v, t) && Grows(p.s, p.r, q.s, q.r)
    && q.s.tables.Keys == p.s.tables.Keys + PathTo(t) && q.s.tables[t] == table
  }

  /** From `p` the free pages ran out at a table, and address 0 is recorded in its place; at most `more` tables will
      still be recorded, and there is room for them if there was for all. */
  ghost predicate Lost(p: Point, q: Point, v: Vpn, more: nat) {
    && Starved(p.s, p.r, v) && NullListed(q.s) && q.r.free == {} && q.s.user == p.s.user
    && (FitsArrays(p.s, v) ==> |q.s.kernel| + more < MAX_PROCESS_PAGES)
  }

  ghost predicate At(p: Point, q: Point, v: Vpn, t: TableId, table: int) {
    Reached(p, q, v, t, table) || Lost(p, q, v, Below(t))
  }

  /** What the counts of a reached state say, without its tree. */
  lemma ReachedCounts(p: Point, q: Point, v: Vpn, t: TableId, table: int)
    requires Reached(p, q, v, t, table)
    ensures q.s.tables.Keys == p.s.tables.Keys + PathTo(t) && |q.s.kernel| == |q.s.tables.Keys| && t in TablesFor(v)
    ensures |q.r.free| + |q.s.tables.Keys| == |p.r.free| + |p.s.tables.Keys|
    ensures q.s.user == p.s.user
  {
  }

  /** If a table is missing, so are the ones below it. */
  lemma MissingBelow(s: Space, r: Ram, v: Vpn, t: TableId)
    requires Ready(s, r, v, t) && !t.Pte? && Child(t, IndexIn(v, t)) !in s.tables
    ensures s.tables.Keys !! PathFrom(v, t)
  {
    OnTheWay(v, t);
    assert Pmd(v.pgd, v.pud) in s.tables ==> Parent(Pmd(v.pgd, v.pud)) in s.tables;
    assert PteOf(v) in s.tables ==> Parent(PteOf(v)) in s.tables;
  }

  /** Of what is needed, `to` was got and `from` is missing. */
  lemma MissingSize<T>(before: set<T>, to: set<T>, from: set<T>)
    requires before + to !! from
    ensures |before + to + (to + from)| == |before + to| + |from|
    ensures |(to + from) - before| == |before + to| - |before| + |from|
  {
    assert before + to + (to + from) == (before + to) + from;
    assert (to + from) - before == (to - before) + from;
    UnionSize(before, to);
  }

  lemma ReachedMissing(p: Point, q: Point, v: Vpn, t: TableId, table: int)
    requires (var reached := Reached(p, q, v, t, table); reached) && q.s.tables.Keys !! PathFrom(v, t)
    ensures |TablesFor(v) - p.s.tables.Keys| == |p.r.free| - |q.r.free| + Below(t)
    ensures FitsArrays(p.s, v) ==> |q.s.kernel| + Below(t) < MAX_PROCESS_PAGES
  {
    ReachedCounts(p, q, v, t, table);
    PathParts(v, t);
    assert p.s.tables.Keys + TablesFor(v) == p.s.tables.Keys + PathTo(t) + (PathTo(t) + PathFrom(v, t));
    MissingSize(p.s.tables.Keys, PathTo(t), PathFrom(v, t));
  }

  /** No page for a table on the way: there were too few at the start. */
  lemma LosesHere(p: Point, q: Point, v: Vpn, t: TableId, table: int)
    requires Reached(p, q, v, t, table) && !t.Pte? && Child(t, IndexIn(v, t)) !in q.s.tables && q.r.free == {}
    ensures Starved(p.s, p.r, v) && (FitsArrays(p.s, v) ==> |q.s.kernel| + Below(t) < MAX_PROCESS_PAGES)
  {
    MissingBelow(q.s, q.r, v, t);
    ReachedMissing(p, q, v, t, table);
  }

  /** With all four tables there, there were enough, and the array has room for as many as are listed. */
  lemma NotStarved(p: Point, q: Point, v: Vpn, table: int)
    requires Reached(p, q, v, PteOf(v), table)
    ensures !Starved(p.s, p.r, v) && |p.s.tables.Keys + TablesFor(v)| == |q.s.kernel|
  {
    ReachedMissing(p, q, v, PteOf(v), table);
    ReachedCounts(p, q, v, PteOf(v), table);
    PathWhole(v);
  }

  /** What the entry of a reached table holds. */
  lemma ReachedEntry(p: Point, q: Point, v: Vpn, t: TableId, table: int)
    requires Reached(p, q, v, t, table) && !t.Pte?
    ensures table in q.r.memory && (q.r.memory[table][IndexIn(v, t)] == 0 <==> Child(t, IndexIn(v, t)) !in q.s.tables)
    ensures Child(t, IndexIn(v, t)) !in q.s.tables ==> q.s.tables.Keys !! PathFrom(v, t)
  {
    ReadEntry(q.s, q.r, t, IndexIn(v, t));
    if Child(t, IndexIn(v, t)) !in q.s.tables {
      MissingBelow(q.s, q.r, v, t);
    }
  }

  /** If there is room for all tables, there is for one more where the entry is empty. */
  lemma CanRecord(p: Point, q: Point, v: Vpn, t: TableId, table: int)
    requires (var at := At(p, q, v, t, table); at) && !t.Pte?
    ensures table !in q.r.memory ==> var lost := Lost(p, q, v, 0); lost
    ensures table in q.r.memory && q.r.memory[table][IndexIn(v, t)] == 0 && FitsArrays(p.s, v) ==>
      |q.s.kernel| + 1 < MAX_PROCESS_PAGES
  {
    if Reached(p, q, v, t, table) {
      ReachedEntry(p, q, v, t, table);
      if Child(t, IndexIn(v, t)) !in q.s.tables {
        ReachedMissing(p, q, v, t, table);
      }
    }
  }

  lemma LostStep(p: Point, q: Point, v: Vpn, t: TableId, table: int, q': Point, next: int)
    requires Lost(p, q, v, Below(t)) && t in TablesFor(v) && !t.Pte? && table in q.r.memory
    requires Level(q.s, q.r, table, Child(t, IndexIn(v, t)), IndexIn(v, t), q'.s, q'.r, next)
    ensures Lost(p, q', v, Below(Child(t, IndexIn(v, t))))
  {
    PathParts(v, t);
  }

  lemma FoundStep(p: Point, q: Point, v: Vpn, t: TableId, table: int, q': Point, next: int)
    requires p.r.used !! p.r.free && Reached(p, q, v, t, table) && !t.Pte? && table in q.r.memory
    requires Child(t, IndexIn(v, t)) in q.s.tables || q.r.free != {}
    requires Level(q.s, q.r, table, Child(t, IndexIn(v, t)), IndexIn(v, t), q'.s, q'.r, next)
    ensures var reached := Reached(p, q', v, Child(t, IndexIn(v, t)), next); reached
  {
    PathParts(v, t);
    AfterLevel(q.s, q.r, v, t, q'.s, q'.r, next);
    GrowsTwice(p.s, p.r, q.s, q.r, q'.s, q'.r);
    ReachedFrom(p, q, q', v, t, Child(t, IndexIn(v, t)), next);
  }

  lemma ReachedFrom(p: Point, q: Point, q': Point, v: Vpn, t: TableId, c: TableId, next: int)
    requires var ready := Ready(q'.s, q'.r, v, c); ready
    requires var grows := Grows(p.s, p.r, q'.s, q'.r); grows
    requires q.s.tables.Keys == p.s.tables.Keys + PathTo(t) && PathTo(c) == PathTo(t) + {c}
    requires q'.s.tables.Keys == q.s.tables.Keys + {c} && q'.s.tables[c] == next
    ensures var reached := Reached(p, q', v, c, next); reached
  {
  }

  lemma LosingStep(p: Point, q: Point, v: Vpn, t: TableId, table: int, q': Point, next: int)
    requires (var reached := Reached(p, q, v, t, table); reached) && !t.Pte? && table in q.r.memory
    requires Child(t, IndexIn(v, t)) !in q.s.tables && q.r.free == {}
    requires Level(q.s, q.r, table, Child(t, IndexIn(v, t)), IndexIn(v, t), q'.s, q'.r, next)
    ensures var lost := Lost(p, q', v, Below(Child(t, IndexIn(v, t)))); lost
  {
    ReachedEntry(p, q, v, t, table);
    LosesHere(p, q, v, t, table);
    ReachedCounts(p, q, v, t, table);
    PathParts(v, t);
    LostFrom(p, q, q', v, Below(Child(t, IndexIn(v, t))));
  }

  lemma LostFrom(p: Point, q: Point, q': Point, v: Vpn, more: nat)
    requires Starved(p.s, p.r, v) && q.s.user == p.s.user
    requires FitsArrays(p.s, v) ==> |q.s.kernel| + 1 + more < MAX_PROCESS_PAGES
    requires q'.s == q.s.(kernel := q.s.kernel + [0]) && q'.r.free == {}
    ensures var lost := Lost(p, q', v, more); lost
  {
  }

  /** One step down, wherever the walk is. */
  lemma Step(p: Point, q: Point, v: Vpn, t: TableId, table: int, q': Point, next: int)
    requires p.r.used !! p.r.free && (var at := At(p, q, v, t, table); at)
    requires t in TablesFor(v) && !t.Pte? && table in q.r.memory
    requires Level(q.s, q.r, table, Child(t, IndexIn(v, t)), IndexIn(v, t), q'.s, q'.r, next)
    ensures var at := At(p, q', v, Child(t, IndexIn(v, t)), next); at
  {
    if Lost(p, q, v, Below(t)) {
      LostStep(p, q, v, t, table, q', next);
    } else if Child(t, IndexIn(v, t)) in q.s.tables || q.r.free != {} {
      FoundStep(p, q, v, t, table, q', next);
    } else {
      LosingStep(p, q, v, t, table, q', next);
    }
  }

  /** A step without a page: the entry is the descriptor of a table at address 0, and no tree whatever has a table in
      that page any more. */
  lemma NullLink(p: Point, q: Point, v: Vpn, t: TableId, table: int, q': Point, next: int,
          tables: map<TableId, int>, flat: map<Vpn, int>)
    requires Reached(p, q, v, t, table) && !t.Pte? && table in q.r.memory
    requires Child(t, IndexIn(v, t)) !in q.s.tables && q.r.free == {}
    requires Level(q.s, q.r, table, Child(t, IndexIn(v, t)), IndexIn(v, t), q'.s, q'.r, next)
    requires t in tables && tables[t] == table
    ensures next == 0 && q'.r.memory[table][IndexIn(v, t)] == 3 && NullListed(q'.s)
    ensures !Represents(q'.r.memory, tables, flat)
  {
    ReachedEntry(p, q, v, t, table);
    NullTable(q'.r.memory, tables, flat, t, IndexIn(v, t));
  }

  /** One of the three identical steps of `map_page`: find or make the next table, and record a new one in
      `kernelpages`.  `stopped` is an access to an address without memory, from which the kernel does not return, and
      `overrun` a store past the end of the array. */
  method MapLevel(ram: PhysicalMemory, task: AddressSpace, table: int, unit: nat, virt_adr: Word, ghost t: TableId,
          ghost p: Point)
    returns (next: int, stopped: bool, overrun: bool)
    requires ram.Valid() && task.Valid() && p.r.used !! p.r.free
    requires t in TablesFor(VpnOf(virt_adr)) && !t.Pte?
    requires unit > 0 && IndexAt(virt_adr, unit) == IndexIn(VpnOf(virt_adr), t)
    requires var at := At(p, Point(task.space, RamOf(ram)), VpnOf(virt_adr), t, table); at
    modifies ram, ram.page_bitmap, task`kernelpages, task`kernelpages_count, task`space
    ensures ram.Valid() && task.Valid()
    ensures overrun ==> !FitsArrays(p.s, VpnOf(virt_adr))
    ensures stopped && !overrun ==> var lost := Lost(p, Point(task.space, RamOf(ram)), VpnOf(virt_adr), 0); lost
    ensures !stopped && !overrun ==>
      var c := Child(t, IndexIn(VpnOf(virt_adr), t));
      var at := At(p, Point(task.space, RamOf(ram)), VpnOf(virt_adr), c, next); at
  {
    ghost var v, q := VpnOf(virt_adr), Point(task.space, RamOf(ram));
    CanRecord(p, q, v, t, table);
    if table !in ram.memory {
      return 0, true, false;
    }
    stopped := false;
    next, overrun := FollowOrMake(ram, task, table, unit, virt_adr, Child(t, IndexAt(virt_adr, unit)));
    if !overrun {
      Step(p, q, v, t, table, Point(task.space, RamOf(ram)), next);
    }
  }

  method FollowOrMake(ram: PhysicalMemory, task: AddressSpace, table: int, unit: nat, virt_adr: Word, ghost c: TableId)
    returns (next: int, overrun: bool)
    requires ram.Valid() && task.Valid() && unit > 0 && table in ram.memory
    modifies ram, ram.page_bitmap, task`kernelpages, task`kernelpages_count, task`space
    ensures ram.Valid() && task.Valid()
    ensures overrun <==>
      old(ram.memory)[table][IndexAt(virt_adr, unit)] == 0 && |old(task.space).kernel| + 1 >= MAX_PROCESS_PAGES
    ensures !overrun ==>
      Level(old(task.space), old(RamOf(ram)), table, c, IndexAt(virt_adr, unit), task.space, RamOf(ram), next)
  {
    var new_table;
    next, new_table := MapTable(ram, table, unit, virt_adr);
    overrun := new_table && task.kernelpages_count + 1 >= MAX_PROCESS_PAGES;
    if new_table && !overrun {
      task.RecordTable(next);
      if next != 0 {
        task.space := task.space.(tables := task.space.tables[c := next]);
      }
    }
  }

  /** `map_table`: the next table of the walk.  An empty entry gets a fresh page, or, when none is free, the descriptor
      of a table at address 0. */
  method MapTable(ram: PhysicalMemory, table: int, unit: nat, virt_adr: Word) returns (next: int, new_table: bool)
    requires ram.Valid() && table in ram.memory && unit > 0
    modifies ram, ram.page_bitmap
    ensures ram.Valid()
    ensures new_table <==> old(ram.memory)[table][IndexAt(virt_adr, unit)] == 0
    ensures !new_table ==>
      && RamOf(ram) == old(RamOf(ram))
      && next == PageBase(ram.memory[table][IndexAt(virt_adr, unit)])
    ensures new_table ==> (next == 0 <==> old(ram.free) == {})
    ensures new_table && next == 0 ==>
      var n := IndexAt(virt_adr, unit);
      RamOf(ram) == old(RamOf(ram)).(memory := old(ram.memory)[table := old(ram.memory)[table][n := TableEntry(0)]])
    ensures new_table && next != 0 ==>
      && PageAddress(next) && next in old(ram.free) && next !in old(ram.used)
      && ram.memory == LinkedAt(old(ram.memory), table, IndexAt(virt_adr, unit), next)
      && ram.free == old(ram.free) - {next} && ram.used == old(ram.used) + {next}
  {
    var idx := And(Shifted(virt_adr, unit), ENTRIES - 1);
    MaskIsIndex(virt_adr, unit);
    if ram.memory[table][idx] == 0 {
      new_table := true;
      var next_level_table := ram.GetNextFreePage();
      TableFlagsAdd(next_level_table);
      var entry := Or(next_level_table, TABLE_FLAGS);
      ram.memory := ram.memory[table := ram.memory[table][idx := entry]];
      return next_level_table, new_table;
    } else {
      new_table := false;
    }
    MaskIsBase(ram.memory[table][idx]);
    next := And(ram.memory[table][idx], PAGE_MASK);
  }

  /** `map_table_entry`. */
  method MapTableEntry(ram: PhysicalMemory, table: int, virt_adr: Word, phys_adr: int)
    requires ram.Valid() && table in ram.memory && PageAddress(phys_adr)
    modifies ram`memory
    ensures ram.Valid()
    ensures ram.memory == WithEntry(old(ram.memory), table, virt_adr, phys_adr)
  {
    var idx := And(Shifted(virt_adr, PTE_UNIT), ENTRIES - 1);
    MaskIsIndex(virt_adr, PTE_UNIT);
    PageFlagsAdd(phys_adr);
    ram.memory := ram.memory[table := ram.memory[table][idx := Or(phys_adr, PTE_FLAGS)]];
  }

  /** The last-level entry for `va` in the table at page `table` maps `page`. */
  function WithEntry(memory: Memory, table: int, va: Word, page: int): Memory
    requires table in memory && PageAddress(page)
  {
    memory[table := memory[table][IndexAt(va, PTE_UNIT) := PageEntry(page)]]
  }

  /** The page directory of a task, made when it has none. */
  ghost predicate Directory(s: Space, r: Ram, s': Space, r': Ram) {
    if s.pgd != 0 then s' == s && r' == r
    else if r.free == {} then r' == r && s' == s.(kernel := s.kernel + [0])
    else
      var pgd := s'.pgd;
      && PageAddress(pgd) && pgd in r.free && pgd !in r.used
      && r' == Ram(r.memory[pgd := ZeroWords()], r.used + {pgd}, r.free - {pgd})
      && s' == Space(pgd, s.user, s.kernel + [pgd], map[Pgd := pgd])
  }

  lemma FirstDirectory(s: Space, r: Ram, s': Space, r': Ram)
    requires (var ok := SpaceOk(s, r.memory, r.used); ok) && r.used !! r.free && s.pgd == 0 && r.free != {}
    requires Directory(s, r, s', r')
    ensures var tree := TreeOk(s', r'.memory, r'.used); tree
    ensures var grows := Grows(s, r, s', r'); grows
    ensures s.user == [] && s'.user == [] && s.tables == map[] && s'.tables == map[Pgd := s'.pgd]
  {
    AddDirectory(s, r.memory, r.used, s'.pgd);
    assert s.kernel + [s'.pgd] == [s'.pgd];
    DirectoryGrows(s, r, s', r');
  }

  lemma DirectoryGrows(s: Space, r: Ram, s': Space, r': Ram)
    requires s.tables == map[] && s.user == [] && r.used !! r.free && s.pgd == 0 && r.free != {}
    requires Directory(s, r, s', r')
    ensures var grows := Grows(s, r, s', r'); grows
  {
    ValuesGrow(s.tables, Pgd, s'.pgd);
    assert s'.tables == s.tables[Pgd := s'.pgd] && s'.tables.Keys == {Pgd};
  }

  lemma AtPgd(p: Point, v: Vpn, p0: Point)
    requires (var start := Start(p); start) && Directory(p.s, p.r, p0.s, p0.r)
    ensures var at := At(p, p0, v, Pgd, p0.s.pgd); at
  {
    if p.s.pgd != 0 {
      PgdThere(p, v);
    } else if p.r.free != {} {
      PgdMade(p, v, p0);
    } else {
      NoDirectory(p, v);
    }
  }

  lemma PgdThere(p: Point, v: Vpn)
    requires Start(p) && p.s.pgd != 0
    ensures var reached := Reached(p, p, v, Pgd, p.s.pgd); reached
  {
    assert p.s.tables.Keys == p.s.tables.Keys + {Pgd};
  }

  lemma PgdMade(p: Point, v: Vpn, p0: Point)
    requires (var start := Start(p); start) && Directory(p.s, p.r, p0.s, p0.r) && p.s.pgd == 0 && p.r.free != {}
    ensures var reached := Reached(p, p0, v, Pgd, p0.s.pgd); reached
  {
    StartParts(p);
    FirstDirectory(p.s, p.r, p0.s, p0.r);
    ReachedFirst(p, v, p0);
  }

  lemma StartParts(p: Point)
    requires Start(p)
    ensures (var ok := SpaceOk(p.s, p.r.memory, p.r.used); ok) && p.r.used !! p.r.free
  {
  }

  lemma ReachedFirst(p: Point, v: Vpn, p0: Point)
    requires var tree := TreeOk(p0.s, p0.r.memory, p0.r.used); tree
    requires var grows := Grows(p.s, p.r, p0.s, p0.r); grows
    requires p0.r.used !! p0.r.free
    requires p.s.tables == map[] && p0.s.tables == map[Pgd := p0.s.pgd] && p0.s.user == p.s.user
    ensures var reached := Reached(p, p0, v, Pgd, p0.s.pgd); reached
  {
    FirstKeys(p.s, p0.s);
  }

  lemma FirstKeys(s: Space, s': Space)
    requires s.tables == map[] && s'.tables == map[Pgd := s'.pgd]
    ensures s'.tables.Keys == s.tables.Keys + PathTo(Pgd)
  {
    assert s'.tables.Keys == {Pgd} && s.tables.Keys == {};
  }

  lemma NoDirectory(p: Point, v: Vpn)
    requires (var start := Start(p); start) && p.s.pgd == 0
    ensures p.s.user == [] && p.s.kernel == [] && p.s.tables == map[]
    ensures p.r.free == {} ==> Starved(p.s, p.r, v)
  {
    Treeless(p.s, p.r.memory, p.r.used);
    assert TablesFor(v) - p.s.tables.Keys == TablesFor(v);
  }

  /** The effect of `map_page` when there are pages for its tables: one more entry in the list, free pages spent on
      tables only, and no page in use changed beside the task's tables. */
  ghost predicate Maps(s: Space, r: Ram, s': Space, r': Ram, va: Word, page: int) {
    && s'.user == s.user + [UserPage(page, va)]
    && Keeps(r.memory, r'.memory, r.used - s.tables.Values)
    && r.used <= r'.used && r'.free <= r.free && r'.used !! r'.free
    && s'.tables.Values - s.tables.Values <= r.free
    && |r'.free| + |TablesNeeded(s'.user)| == |r.free| + |TablesNeeded(s.user)|
  }

  /** The last step: from the last-level table to the mapped page. */
  lemma AfterEntry(s: Space, r: Ram, s3: Space, r3: Ram, va: Word, page: int, r': Ram)
    requires (var ok := SpaceOk(s, r.memory, r.used); ok) && r.used !! r.free
    requires PageAddress(page) && page in r.used && page !in Owned(s) && page in r.memory
    requires var ready := Ready(s3, r3, VpnOf(va), PteOf(VpnOf(va))); ready
    requires var grows := Grows(s, r, s3, r3); grows
    requires s3.tables.Keys == s.tables.Keys + TablesFor(VpnOf(va)) && PteOf(VpnOf(va)) in s3.tables
    requires var pte := s3.tables[PteOf(VpnOf(va))];
      pte in r3.memory && r' == r3.(memory := WithEntry(r3.memory, pte, va, page))
    ensures var s' := s3.(user := s3.user + [UserPage(page, va)]);
      (var ok := SpaceOk(s', r'.memory, r'.used); ok) && var maps := Maps(s, r, s', r', va, page); maps
  {
    NewPage(s, r, s3, r3, page);
    EntryOk(s, r, s3, r3, va, page, r');
    EntryMaps(s, r, s3, r3, va, page, r');
  }

  /** The page to be mapped is none of the tables or pages there are. */
  lemma NewPage(s: Space, r: Ram, s3: Space, r3: Ram, page: int)
    requires r.used !! r.free && Grows(s, r, s3, r3) && page in r.used && page !in Owned(s) && page in r.memory
    ensures page !in Owned(s3) && page in r3.memory && page in r3.used
  {
  }

  lemma EntryOk(s: Space, r: Ram, s3: Space, r3: Ram, va: Word, page: int, r': Ram)
    requires SpaceOk(s, r.memory, r.used) && s3.user == s.user
    requires PageAddress(page) && page !in Owned(s3) && page in r3.memory && page in r3.used
    requires Ready(s3, r3, VpnOf(va), PteOf(VpnOf(va)))
    requires s3.tables.Keys == s.tables.Keys + TablesFor(VpnOf(va))
    requires var pte := s3.tables[PteOf(VpnOf(va))];
      pte in r3.memory && r' == r3.(memory := WithEntry(r3.memory, pte, va, page))
    ensures var s' := s3.(user := s3.user + [UserPage(page, va)]); var ok := SpaceOk(s', r'.memory, r'.used); ok
  {
    AddPage(s3, r3.memory, r'.memory, r3.used, va, page);
    Extend(s.user, UserPage(page, va));
  }

  lemma EntryMaps(s: Space, r: Ram, s3: Space, r3: Ram, va: Word, page: int, r': Ram)
    requires s.tables.Keys == TablesNeeded(s.user) && Grows(s, r, s3, r3)
    requires s3.tables.Keys == s.tables.Keys + TablesFor(VpnOf(va)) && PteOf(VpnOf(va)) in s3.tables && r.used !! r.free
    requires var pte := s3.tables[PteOf(VpnOf(va))];
      PageAddress(page) && pte in r3.memory && r' == r3.(memory := WithEntry(r3.memory, pte, va, page))
    ensures var maps := Maps(s, r, s3.(user := s3.user + [UserPage(page, va)]), r', va, page); maps
  {
    assert s3.tables[PteOf(VpnOf(va))] in s3.tables.Values;
    Extend(s.user, UserPage(page, va));
  }

  /** What `map_page` achieves: the page mapped, or, with too few free pages, a null table on record. */
  ghost predicate Mapped(p: Point, p': Point, va: Word, page: int) {
    if Starved(p.s, p.r, VpnOf(va)) then NullListed(p'.s) && p'.r.free == {}
    else SpaceOk(p'.s, p'.r.memory, p'.r.used) && Maps(p.s, p.r, p'.s, p'.r, va, page)
  }

  lemma PageMapped(p: Point, va: Word, q: Point, pte: int, page: int, p': Point)
    requires var start := Start(p); start
    requires var at := At(p, q, VpnOf(va), PteOf(VpnOf(va)), pte); at
    requires PageAddress(page) && page in p.r.used && page !in Owned(p.s) && page in p.r.memory
    requires pte in q.r.memory && p'.r == q.r.(memory := WithEntry(q.r.memory, pte, va, page))
    requires p'.s == q.s.(user := q.s.user + [UserPage(page, va)])
    requires |q.s.kernel| < MAX_PROCESS_PAGES && |p.s.user| < MAX_PROCESS_PAGES
    ensures var ends := MapEnds(p, p', va, page, false, false); ends
  {
    if !Lost(p, q, VpnOf(va), 0) {
      NotStarved(p, q, VpnOf(va), pte);
      PageMappedAt(p, va, q, pte, page, p');
    }
  }

  lemma PageMappedAt(p: Point, va: Word, q: Point, pte: int, page: int, p': Point)
    requires var start := Start(p); start
    requires var reached := Reached(p, q, VpnOf(va), PteOf(VpnOf(va)), pte); reached
    requires PageAddress(page) && page in p.r.used && page !in Owned(p.s) && page in p.r.memory
    requires pte in q.r.memory && p'.r == q.r.(memory := WithEntry(q.r.memory, pte, va, page))
    requires p'.s == q.s.(user := q.s.user + [UserPage(page, va)])
    ensures var ok := SpaceOk(p'.s, p'.r.memory, p'.r.used); ok
    ensures var maps := Maps(p.s, p.r, p'.s, p'.r, va, page); maps
  {
    StartParts(p);
    ReachedParts(p, q, VpnOf(va), PteOf(VpnOf(va)), pte);
    PathWhole(VpnOf(va));
    AfterEntry(p.s, p.r, q.s, q.r, va, page, p'.r);
  }

  lemma PathWhole(v: Vpn)
    ensures PathTo(PteOf(v)) == TablesFor(v)
  {
  }

  lemma ReachedParts(p: Point, q: Point, v: Vpn, t: TableId, table: int)
    requires Reached(p, q, v, t, table)
    ensures var ready := Ready(q.s, q.r, v, t); ready
    ensures var grows := Grows(p.s, p.r, q.s, q.r); grows
    ensures q.s.tables.Keys == p.s.tables.Keys + PathTo(t) && t in q.s.tables && q.s.tables[t] == table
  {
  }

  /** What is needed of the last table before the entry is stored. */
  lemma AtPte(p: Point, q: Point, v: Vpn, pte: int)
    requires At(p, q, v, PteOf(v), pte)
    ensures q.s.user == p.s.user
    ensures pte !in q.r.memory ==> Lost(p, q, v, 0)
  {
    if Reached(p, q, v, PteOf(v), pte) {
      assert q.s.tables[PteOf(v)] in q.r.memory;
    }
  }

  /** The start of `map_page`: a page directory for a task that has none. */
  method MakeDirectory(ram: PhysicalMemory, task: AddressSpace)
    requires ram.Valid() && task.Valid()
    requires task.pagedirectory == 0 ==> task.space.kernel == []
    modifies ram, ram.page_bitmap, task`pagedirectory, task`kernelpages, task`kernelpages_count, task`space
    ensures ram.Valid() && task.Valid()
    ensures Directory(old(task.space), old(RamOf(ram)), task.space, RamOf(ram))
  {
    if task.pagedirectory == 0 {
      assert task.kernelpages_count == |task.space.kernel|;
      var pgd := ram.GetNextFreePage();
      task.pagedirectory := pgd;
      if pgd != 0 {
        task.space := task.space.(pgd := pgd, tables := map[Pgd := pgd]);
      }
      task.RecordTable(task.pagedirectory);
    }
  }

  /** `map_page`, from the page directory to the last-level table. */
  method MapTables(ram: PhysicalMemory, task: AddressSpace, virt_adr: Word)
    returns (pte: int, stopped: bool, overrun: bool)
    requires ram.Valid() && task.Valid()
    requires var start := Start(Point(task.space, RamOf(ram))); start
    modifies ram, ram.page_bitmap, task`pagedirectory, task`kernelpages, task`kernelpages_count, task`space
    ensures ram.Valid() && task.Valid()
    ensures overrun ==> !FitsArrays(old(task.space), VpnOf(virt_adr))
    ensures stopped && !overrun ==>
      var lost := Lost(old(Point(task.space, RamOf(ram))), Point(task.space, RamOf(ram)), VpnOf(virt_adr), 0); lost
    ensures !stopped && !overrun ==>
      var v := VpnOf(virt_adr);
      var at := At(old(Point(task.space, RamOf(ram))), Point(task.space, RamOf(ram)), v, PteOf(v), pte); at
  {
    ghost var v, p := VpnOf(virt_adr), Point(task.space, RamOf(ram));
    StartFacts(p, v);
    MakeDirectory(ram, task);
    AtPgd(p, v, Point(task.space, RamOf(ram)));
    var page_directory := task.pagedirectory;
    var pud, pmd;
    pud, stopped, overrun := MapLevel(ram, task, page_directory, PGD_UNIT, virt_adr, Pgd, p);
    if stopped || overrun {
      return 0, stopped, overrun;
    }
    pmd, stopped, overrun := MapLevel(ram, task, pud, PUD_UNIT, virt_adr, Pud(v.pgd), p);
    if stopped || overrun {
      return 0, stopped, overrun;
    }
    pte, stopped, overrun := MapLevel(ram, task, pmd, PMD_UNIT, virt_adr, Pmd(v.pgd, v.pud), p);
  }

  lemma StartFacts(p: Point, v: Vpn)
    requires Start(p)
    ensures p.r.used !! p.r.free && (p.s.pgd == 0 ==> p.s.kernel == [])
  {
    if p.s.pgd == 0 {
      NoDirectory(p, v);
    }
  }

  /** How `map_page` ends.  `overrun` is a store past the end of an array, and `stopped` an access to an address without
      memory: the kernel does not return from it. */
  ghost predicate MapEnds(p: Point, p': Point, va: Word, page: int, stopped: bool, overrun: bool) {
    if overrun then !FitsArrays(p.s, VpnOf(va))
    else
      && (stopped ==> Starved(p.s, p.r, VpnOf(va)))
      && (FitsArrays(p.s, VpnOf(va)) || Starved(p.s, p.r, VpnOf(va)))
      && Mapped(p, p', va, page)
  }

  lemma LostEnds(p: Point, p': Point, va: Word, page: int)
    requires Lost(p, p', VpnOf(va), 0)
    ensures var ends := MapEnds(p, p', va, page, true, false); ends
  {
  }

  /** `map_page`.  It leaves a null table on record, or stops, exactly if there are fewer free pages than tables to
      make, and otherwise it stores past the end of an array exactly if there is no room for the page and its tables. */
  method MapPage(ram: PhysicalMemory, task: AddressSpace, virt_adr: Word, page: int)
    returns (stopped: bool, overrun: bool)
    requires ram.Valid() && task.Valid()
    requires var start := Start(Point(task.space, RamOf(ram))); start
    requires PageAddress(page) && page in ram.used && page !in Owned(task.space) && page in ram.memory
    modifies ram, ram.page_bitmap, task
    ensures ram.Valid() && task.Valid()
    ensures var p, p' := old(Point(task.space, RamOf(ram))), Point(task.space, RamOf(ram));
      var ends := MapEnds(p, p', virt_adr, page, stopped, overrun); ends
  {
    ghost var v, p := VpnOf(virt_adr), Point(task.space, RamOf(ram));
    var pte;
    pte, stopped, overrun := MapTables(ram, task, virt_adr);
    if stopped || overrun {
      if !overrun {
        LostEnds(p, Point(task.space, RamOf(ram)), virt_adr, page);
      }
      return;
    }
    ghost var q := Point(task.space, RamOf(ram));
    AtPte(p, q, v, pte);
    if pte !in ram.memory {
      LostEnds(p, q, virt_adr, page);
      return true, false;
    }
    overrun := StorePage(ram, task, pte, virt_adr, page);
    if overrun {
      OverrunEnds(p, Point(task.space, RamOf(ram)), virt_adr, page);
    } else {
      PageMapped(p, virt_adr, q, pte, page, Point(task.space, RamOf(ram)));
    }
  }

  /** The last step of `map_page`: the entry of the page, and its record. */
  method StorePage(ram: PhysicalMemory, task: AddressSpace, pte: int, virt_adr: Word, page: int)
    returns (overrun: bool)
    requires ram.Valid() && task.Valid() && pte in ram.memory && PageAddress(page)
    modifies ram`memory, task`userpages, task`userpages_count, task`space
    ensures ram.Valid() && task.Valid()
    ensures RamOf(ram) == old(RamOf(ram)).(memory := WithEntry(old(ram.memory), pte, virt_adr, page))
    ensures overrun <==> |old(task.space).user| >= MAX_PROCESS_PAGES
    ensures !overrun ==> task.space == old(task.space).(user := old(task.space).user + [UserPage(page, virt_adr)])
    ensures !overrun ==> |task.space.kernel| < MAX_PROCESS_PAGES
  {
    MapTableEntry(ram, pte, virt_adr, page);
    overrun := task.userpages_count >= MAX_PROCESS_PAGES;
    if !overrun {
      task.RecordPage(UserPage(page, virt_adr));
    }
  }

  lemma OverrunEnds(p: Point, p': Point, va: Word, page: int)
    requires |p.s.user| >= MAX_PROCESS_PAGES
    ensures var ends := MapEnds(p, p', va, page, false, true); ends
  {
  }

  // ---------- The first page of a task ----------

  /** The first page of a task needs four tables.  With fewer pages left, whatever is at address 0, no tree fits its
      fields when the walk down is over. */
  lemma FirstPageLost(p: Point, v: Vpn, p0: Point, p1: Point, pud: int, p2: Point, pmd: int, p3: Point, pte: int)
    requires p.s == Space(0, [], [], map[]) && |p.r.free| < 4 && p.r.used !! p.r.free
    requires Directory(p.s, p.r, p0.s, p0.r)
    requires p0.s.pgd in p0.r.memory && Level(p0.s, p0.r, p0.s.pgd, Pud(v.pgd), v.pgd, p1.s, p1.r, pud)
    requires pud in p1.r.memory && Level(p1.s, p1.r, pud, Pmd(v.pgd, v.pud), v.pud, p2.s, p2.r, pmd)
    requires pmd in p2.r.memory && Level(p2.s, p2.r, pmd, PteOf(v), v.pmd, p3.s, p3.r, pte)
    ensures NullListed(p3.s) && p3.r.free == {} && !Sound(p3.s, p3.r.memory, p3.r.used)
  {
    EmptyStart(p, v);
    AtPgd(p, v, p0);
    Step(p, p0, v, Pgd, p0.s.pgd, p1, pud);
    Step(p, p1, v, Pud(v.pgd), pud, p2, pmd);
    Step(p, p2, v, Pmd(v.pgd, v.pud), pmd, p3, pte);
    if Reached(p, p3, v, PteOf(v), pte) {
      NotStarved(p, p3, v, pte);
    }
    NullNotSound(p3.s, p3.r.memory, p3.r.used);
  }

  lemma EmptyStart(p: Point, v: Vpn)
    requires p.s == Space(0, [], [], map[]) && p.r.used !! p.r.free
    ensures var start := Start(p); start
    ensures TablesFor(v) - p.s.tables.Keys == TablesFor(v)
  {
    EmptySeparate(p.r.used);
  }

  lemma EmptySeparate(used: set<int>)
    ensures Separate(Space(0, [], [], map[]), used)
  {
    assert Owned(Space(0, [], [], map[])) == {};
  }
}
