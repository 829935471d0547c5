/** The operations of src/mm/paging.c on all tasks together: user allocation, fork's copy, and the page
    fault.  `Valid` holds between any two of them, in any order. */
module Kernels {
  import opened Bits
  import opened PageTables
  import opened Wrappers
  import opened FrameAllocator
  import opened AddressSpaces
  import opened Paging
  import opened Worlds
  import opened Fork

  const VIRTUAL_ADDRESS_START := 0xffff_0000_0000_0000

  /** Any four pages fit. */
  lemma FourPagesFit(s: Space, memory: Memory, used: set<int>, v: Vpn)
    requires SpaceOk(s, memory, used) && |s.user| < 4
    ensures FitsArrays(s, v)
  {
    TableBound(s.user);
    if s.user == [] {
      assert s.tables.Keys + TablesFor(v) == TablesFor(v);
    } else {
      var more := {Pud(v.pgd), Pmd(v.pgd, v.pud), PteOf(v)};
      assert s.tables.Keys + TablesFor(v) == s.tables.Keys + more;
    }
  }

  /** A fifth page may not: if no two of the five share a table but the directory, they need one more than the array has
      room for. */
  lemma FifthPageOverruns(s: Space, memory: Memory, used: set<int>, p: UserPage)
    requires SpaceOk(s, memory, used) && |s.user| == 4 && FarApart(s.user + [p])
    ensures !FitsArrays(s, VpnOf(p.virtual_adr))
  {
    var user := s.user + [p];
    assert user[..4] == s.user && user[4] == p;
    FarApartTables(user);
    assert s.tables.Keys + TablesFor(VpnOf(p.virtual_adr)) == TablesNeeded(user);
  }

  /** What `TakeAndMap` does to one space: take `page`, then map it. */
  ghost predicate TakenAndMapped(s: Space, r: Ram, s': Space, r': Ram, va: Word, page: int) {
    exists r1: Ram :: Taken(r, r1, page) && Maps(s, r1, s', r', va, page)
  }

  lemma ReadyToMap(s: Space, r: Ram, v: Vpn, r1: Ram, page: int)
    requires SpaceOk(s, r.memory, r.used) && r1.used !! r1.free && Taken(r, r1, page)
    ensures var start := Start(Point(s, r1)); start
    ensures page !in Owned(s) && (Starved(s, r1, v) <==> !Enough(s, r, v))
  {
    TakenOne(s, r, r1, page);
    TakenStarves(s, r, r1, page, v);
  }

  /** How taking a page and mapping it ends: the page is mapped, or, with too few pages for its tables, a null table is
      on record and no page is left. */
  ghost predicate TookAndMapped(s: Space, r: Ram, s': Space, r': Ram, va: Word, page: int, stopped: bool) {
    if Enough(s, r, VpnOf(va)) then
      !stopped && SpaceOk(s', r'.memory, r'.used) && TakenAndMapped(s, r, s', r', va, page)
    else
      NullListed(s') && r'.free == {}
  }

  lemma TookMapped(s: Space, r: Ram, r1: Ram, s': Space, r': Ram, va: Word, page: int, stopped: bool)
    requires Taken(r, r1, page) && (Starved(s, r1, VpnOf(va)) <==> !Enough(s, r, VpnOf(va)))
    requires var ends := MapEnds(Point(s, r1), Point(s', r'), va, page, stopped, false); ends
    ensures var took := TookAndMapped(s, r, s', r', va, page, stopped); took
    ensures FitsArrays(s, VpnOf(va)) || !Enough(s, r, VpnOf(va))
  {
  }

  lemma Overruns(p: Point, p': Point, va: Word, page: int, stopped: bool)
    requires MapEnds(p, p', va, page, stopped, true)
    ensures !FitsArrays(p.s, VpnOf(va))
  {
  }

  /** There are pages enough, but no room in the arrays of the `mm_t`. */
  ghost predicate NoRoom(s: Space, r: Ram, v: Vpn) {
    Enough(s, r, v) && !FitsArrays(s, v)
  }

  /** The common part of `allocate_user_page` and `do_mem_abort`, on the task alone. */
  method TakeAndMap(ram: PhysicalMemory, task: AddressSpace, virt_adr: Word)
    returns (page: int, stopped: bool, overrun: bool)
    requires ram.Valid() && task.Valid()
    requires ram.free != {} ==> var ok := SpaceOk(task.space, ram.memory, ram.used); ok
    modifies ram, ram.page_bitmap, task
    ensures ram.Valid() && task.Valid()
    ensures page == 0 <==> old(ram.free) == {}
    ensures page == 0 ==> !stopped && !overrun && RamOf(ram) == old(RamOf(ram)) && task.space == old(task.space)
    ensures page != 0 ==> PageAddress(page)
    ensures overrun ==> !FitsArrays(old(task.space), VpnOf(virt_adr))
    ensures NoRoom(old(task.space), old(RamOf(ram)), VpnOf(virt_adr)) ==> overrun
    ensures page != 0 && !overrun ==>
      var took := TookAndMapped(old(task.space), old(RamOf(ram)), task.space, RamOf(ram), virt_adr, page, stopped); took
  {
    ghost var s, r := task.space, RamOf(ram);
    stopped, overrun := false, false;
    page := ram.GetNextFreePage();
    if page != 0 {
      ghost var r1 := RamOf(ram);
      ReadyToMap(s, r, VpnOf(virt_adr), r1, page);
      stopped, overrun := MapPage(ram, task, virt_adr, page);
      if overrun {
        Overruns(Point(s, r1), Point(task.space, RamOf(ram)), virt_adr, page, stopped);
      } else {
        TookMapped(s, r, r1, task.space, RamOf(ram), virt_adr, page, stopped);
      }
    }
  }

  /** No page is free, or there are enough for the user page and its tables. */
  ghost predicate AllOrNothing(s: Space, r: Ram, v: Vpn) {
    r.free == {} || Enough(s, r, v)
  }

  /** How `allocate_user_page` and a translation fault end in the world of all tasks. */
  ghost predicate TookForWorld<T>(w: map<T, Space>, r: Ram, w': map<T, Space>, r': Ram, t: T, va: Word, page: int,
      stopped: bool)
    requires t in w && t in w'
  {
    if Enough(w[t], r, VpnOf(va)) then
      !stopped && WorldOk(w', r'.memory, r'.used) && Added(w, r, w', r', t, va, page)
    else
      NullListed(w'[t]) && r'.free == {}
  }

  lemma PageAddedTo<T>(w: map<T, Space>, r: Ram, t: T, s': Space, r': Ram, va: Word, page: int, stopped: bool)
    requires WorldOk(w, r.memory, r.used) && t in w && r.used !! r.free
    requires var took := TookAndMapped(w[t], r, s', r', va, page, stopped); took
    ensures var took := TookForWorld(w, r, w[t := s'], r', t, va, page, stopped); took
  {
    if Enough(w[t], r, VpnOf(va)) {
      var r1: Ram :| Taken(r, r1, page) && Maps(w[t], r1, s', r', va, page);
      PageAdded(w, r, t, r1, s', r', va, page);
    }
  }

  /** In both cases the world tells whether the pages sufficed. */
  lemma TookSound<T>(w: map<T, Space>, r: Ram, w': map<T, Space>, r': Ram, t: T, va: Word, page: int, stopped: bool)
    requires t in w && t in w' && TookForWorld(w, r, w', r', t, va, page, stopped)
    ensures var sound := WorldSound(w', t, r'.memory, r'.used); sound <==> Enough(w[t], r, VpnOf(va))
    ensures Enough(w[t], r, VpnOf(va)) ==>
      && !stopped && (var ok := WorldOk(w', r'.memory, r'.used); ok)
      && var added := Added(w, r, w', r', t, va, page); added
  {
    if Enough(w[t], r, VpnOf(va)) {
      OkWorld(w', t, r'.memory, r'.used);
    } else {
      NullWorld(w', t, r'.memory, r'.used);
    }
  }

  lemma TookAt<T>(w: map<T, Space>, r: Ram, w': map<T, Space>, r': Ram, t: T, va: Word, page: int, stopped: bool)
    requires t in w && t in w' && TookForWorld(w, r, w', r', t, va, page, stopped)
    ensures Enough(w[t], r, VpnOf(va)) ==> var at := MapsAt(r.memory, w[t], r'.memory, w'[t], va, page); at
  {
    if Enough(w[t], r, VpnOf(va)) {
      AddedAt(w[t], r, w'[t], r', va, page);
    }
  }

  /** A page mapped at an address is mapped at every address of its page. */
  lemma AddedAround<T>(w: map<T, Space>, r: Ram, w': map<T, Space>, r': Ram, t: T, addr: Word, page: int)
    requires t in w && t in w' && Added(w, r, w', r', t, PageBase(addr), page)
    ensures var at := MapsAt(r.memory, w[t], r'.memory, w'[t], addr, page); at
  {
    AddedAt(w[t], r, w'[t], r', PageBase(addr), page);
    assert PageBase(addr) / 0x1000 == addr / 0x1000;
  }

  class Kernel {
    const ram: PhysicalMemory

    /** The address spaces of all tasks.  A task `Holds` what the world says of it. */
    ghost var world: map<AddressSpace, Space>

    ghost predicate Valid()
      reads this, ram, ram.page_bitmap
    {
      var separate := WorldOk(world, ram.memory, ram.used);
      ram.Valid() && separate
    }

    ghost predicate Holds(task: AddressSpace)
      reads this, task
    {
      task.Valid() && task in world && world[task] == task.space
    }

    constructor (initial: Memory)
      requires Backed(initial)
      ensures Valid() && world == map[] && ram.memory == initial && ram.used == {}
      ensures fresh(ram) && fresh(ram.page_bitmap)
    {
      ram := new PhysicalMemory(initial);
      world := map[];
    }

    /** A task with an empty address space, as `kernel_fork` makes it in a zeroed page. */
    method NewTask() returns (task: AddressSpace)
      requires Valid()
      modifies this
      ensures Valid() && fresh(task) && Holds(task) && world == old(world)[task := Space(0, [], [], map[])]
    {
      task := new AddressSpace();
      EmptySpaceOk(world, task, ram.memory, ram.used);
      world := world[task := task.space];
    }

    /** Some tree for the task's tables makes the world well formed. */
    ghost predicate SoundFor(task: AddressSpace)
      requires task in world
      reads this, ram
    {
      var sound := WorldSound(world, task, ram.memory, ram.used);
      sound
    }

    /** The common part of `allocate_user_page` and `do_mem_abort`.  With no page free it changes nothing, in whatever
        state the world is. */
    method MapFreshPage(task: AddressSpace, virt_adr: Word) returns (page: int, stopped: bool, overrun: bool)
      requires ram.Valid() && Holds(task)
      requires ram.free != {} ==> Valid()
      modifies this, ram, ram.page_bitmap, task
      ensures ram.Valid() && Holds(task) && world == old(world)[task := task.space]
      ensures page == 0 <==> old(ram.free) == {}
      ensures page == 0 ==> !stopped && !overrun && RamOf(ram) == old(RamOf(ram)) && task.space == old(task.space)
      ensures page != 0 ==> PageAddress(page)
      ensures overrun ==> !FitsArrays(old(task.space), VpnOf(virt_adr))
      ensures NoRoom(old(task.space), old(RamOf(ram)), VpnOf(virt_adr)) ==> overrun
      ensures page != 0 && !overrun ==>
        var took := TookForWorld(old(world), old(RamOf(ram)), world, RamOf(ram), task, virt_adr, page, stopped); took
    {
      ghost var w, r := world, RamOf(ram);
      page, stopped, overrun := TakeAndMap(ram, task, virt_adr);
      ghost var s := task.space;
      world := w[task := s];
      if page == 0 {
        SameEntry(w, task, s);
      } else if !overrun {
        PageAddedTo(w, r, task, s, RamOf(ram), virt_adr, page, stopped);
      }
    }

    /** `allocate_user_page`: a zeroed page mapped at `virt_adr`, or 0 when no page is free.  With room in the arrays
        the world stays well formed exactly if there is no page at all, or enough for the tables too; with enough pages
        a store runs past the end of an array exactly if there is no room. */
    method AllocateUserPage(task: AddressSpace, virt_adr: Word)
      returns (kernel_adr: int, stopped: bool, overrun: bool)
      requires ram.Valid() && Holds(task)
      requires ram.free != {} ==> Valid()
      modifies this, ram, ram.page_bitmap, task
      ensures ram.Valid() && Holds(task) && world == old(world)[task := task.space]
      ensures kernel_adr == 0 <==> old(ram.free) == {}
      ensures kernel_adr == 0 ==>
        !stopped && !overrun && RamOf(ram) == old(RamOf(ram)) && task.space == old(task.space)
      ensures overrun ==> !FitsArrays(old(task.space), VpnOf(virt_adr))
      ensures NoRoom(old(task.space), old(RamOf(ram)), VpnOf(virt_adr)) ==> overrun
      ensures kernel_adr != 0 && !overrun ==>
        var page := kernel_adr - VIRTUAL_ADDRESS_START;
        var took := TookForWorld(old(world), old(RamOf(ram)), world, RamOf(ram), task, virt_adr, page, stopped); took
      ensures kernel_adr != 0 && !overrun ==>
        (SoundFor(task) <==> old(Enough(task.space, RamOf(ram), VpnOf(virt_adr))))
      ensures kernel_adr != 0 && !overrun && SoundFor(task) ==>
        var page := kernel_adr - VIRTUAL_ADDRESS_START;
        var at := MapsAt(old(ram.memory), old(task.space), ram.memory, task.space, virt_adr, page); at
    {
      ghost var w, r := world, RamOf(ram);
      var page;
      page, stopped, overrun := MapFreshPage(task, virt_adr);
      if page == 0 {
        return 0, false, false;
      }
      if !overrun {
        TookSound(w, r, world, RamOf(ram), task, virt_adr, page, stopped);
        TookAt(w, r, world, RamOf(ram), task, virt_adr, page, stopped);
      }
      return page + VIRTUAL_ADDRESS_START, stopped, overrun;
    }

    /** `do_mem_abort`: a translation fault maps a zeroed frame at the faulting page; any other abort, and a full
        memory, change nothing.  With room in the arrays the world stays well formed exactly if there is no page for the
        fault, or enough for the tables too. */
    method DoMemAbort(current: AddressSpace, addr: Word, esr: bv64)
      returns (result: int, stopped: bool, overrun: bool, ghost page: int)
      requires Valid() && Holds(current)
      modifies this, ram, ram.page_bitmap, current
      ensures ram.Valid() && Holds(current) && world == old(world)[current := current.space]
      ensures !stopped && !overrun ==> result == if IsTranslationFault(esr) && old(ram.free) != {} then 0 else -1
      ensures !IsTranslationFault(esr) || old(ram.free) == {} ==>
        !stopped && !overrun && RamOf(ram) == old(RamOf(ram)) && current.space == old(current.space)
      ensures overrun ==> !FitsArrays(old(current.space), VpnOf(addr))
      ensures IsTranslationFault(esr) && NoRoom(old(current.space), old(RamOf(ram)), VpnOf(addr)) ==> overrun
      ensures !overrun ==>
        (SoundFor(current) <==>
           (IsTranslationFault(esr) ==> old(AllOrNothing(current.space, RamOf(ram), VpnOf(addr)))))
      ensures !overrun && SoundFor(current) ==> Valid() && !stopped
      ensures IsTranslationFault(esr) && old(ram.free) != {} && !overrun && SoundFor(current) ==>
        var added := Added(old(world), old(RamOf(ram)), world, RamOf(ram), current, PageBase(addr), page);
        added && VpnOf(PageBase(addr)) == VpnOf(addr)
      ensures IsTranslationFault(esr) && old(ram.free) != {} && !overrun && SoundFor(current) ==>
        var at := MapsAt(old(ram.memory), old(current.space), ram.memory, current.space, addr, page); at
    {
      var translation_fault := ReadFaultStatus(esr);
      result, stopped, overrun, page := -1, false, false, 0;
      if translation_fault {
        result, stopped, overrun, page := HandleFault(current, addr);
      } else {
        SameEntry(world, current, current.space);
        SameWorld(world, current, ram.memory, ram.used);
      }
    }

    /** A translation fault. */
    method HandleFault(current: AddressSpace, addr: Word)
      returns (result: int, stopped: bool, overrun: bool, ghost page: int)
      requires Valid() && Holds(current)
      modifies this, ram, ram.page_bitmap, current
      ensures ram.Valid() && Holds(current) && world == old(world)[current := current.space]
      ensures !stopped && !overrun ==> result == if old(ram.free) != {} then 0 else -1
      ensures old(ram.free) == {} ==>
        !stopped && !overrun && RamOf(ram) == old(RamOf(ram)) && current.space == old(current.space)
      ensures overrun ==> !FitsArrays(old(current.space), VpnOf(addr))
      ensures NoRoom(old(current.space), old(RamOf(ram)), VpnOf(addr)) ==> overrun
      ensures !overrun ==> (SoundFor(current) <==> old(AllOrNothing(current.space, RamOf(ram), VpnOf(addr))))
      ensures !overrun && SoundFor(current) ==> Valid() && !stopped
      ensures old(ram.free) != {} && !overrun && SoundFor(current) ==>
        var added := Added(old(world), old(RamOf(ram)), world, RamOf(ram), current, PageBase(addr), page);
        added && VpnOf(PageBase(addr)) == VpnOf(addr)
      ensures old(ram.free) != {} && !overrun && SoundFor(current) ==>
        var at := MapsAt(old(ram.memory), old(current.space), ram.memory, current.space, addr, page); at
    {
      ghost var w, r := world, RamOf(ram);
      SamePage(addr);
      MaskIsBase(addr);
      var new_page;
      new_page, stopped, overrun := MapAtFault(current, And(addr, PAGE_MASK));
      page := new_page;
      result := if new_page == 0 then -1 else 0;
      if r.free != {} && !overrun && SoundFor(current) {
        AddedAround(w, r, world, RamOf(ram), current, addr, page);
      }
    }

    /** The page for a fault, or for `allocate_user_page`, in a well-formed world. */
    method MapAtFault(task: AddressSpace, va: Word) returns (page: int, stopped: bool, overrun: bool)
      requires Valid() && Holds(task)
      modifies this, ram, ram.page_bitmap, task
      ensures ram.Valid() && Holds(task) && world == old(world)[task := task.space]
      ensures page == 0 <==> old(ram.free) == {}
      ensures page == 0 ==> !stopped && !overrun && RamOf(ram) == old(RamOf(ram)) && task.space == old(task.space)
      ensures overrun ==> !FitsArrays(old(task.space), VpnOf(va))
      ensures NoRoom(old(task.space), old(RamOf(ram)), VpnOf(va)) ==> overrun
      ensures !overrun ==> (SoundFor(task) <==> old(AllOrNothing(task.space, RamOf(ram), VpnOf(va))))
      ensures !overrun && SoundFor(task) ==> Valid() && !stopped
      ensures page != 0 && !overrun && SoundFor(task) ==>
        var added := Added(old(world), old(RamOf(ram)), world, RamOf(ram), task, va, page); added
    {
      ghost var w, r := world, RamOf(ram);
      page, stopped, overrun := MapFreshPage(task, va);
      if page == 0 {
        SameEntry(w, task, task.space);
        SameWorld(w, task, ram.memory, ram.used);
      } else if !overrun {
        TookSound(w, r, world, RamOf(ram), task, va, page, stopped);
      }
    }

    /** `memcpy` of one page: the source is read through the current page tables, from the directory in TTBR0, the
        target is a page by its kernel address.  It stops at a source page that is not mapped, or not to memory. */
    method Memcpy(kernel_adr: int, ttbr0: int, user_adr: Word, ghost current: Space) returns (stopped: bool)
      requires ram.Valid() && current.pgd == ttbr0 && ttbr0 != 0
      modifies ram`memory
      ensures ram.Valid()
      ensures var from := Translate(old(ram.memory), current, VpnOf(user_adr));
        && (stopped <==> from == None || from.value !in old(ram.memory))
        && ram.memory == if stopped then old(ram.memory)
             else old(ram.memory)[kernel_adr - VIRTUAL_ADDRESS_START := old(ram.memory)[from.value]]
    {
      HardwareWalks(ram.memory, ttbr0, user_adr);
      var from := HardwareWalk(ram.memory, ttbr0, user_adr);
      if from == None || from.value !in ram.memory {
        return true;
      }
      StillBacked(ram.memory, kernel_adr - VIRTUAL_ADDRESS_START, ram.memory[from.value]);
      ram.memory := ram.memory[kernel_adr - VIRTUAL_ADDRESS_START := ram.memory[from.value]];
      return false;
    }

    /** A page for the child at `va`, filled from the parent's page there. */
    method AllocateCopy(src: AddressSpace, task: AddressSpace, va: Word)
      returns (kernel_adr: int, stopped: bool, ghost r1: Ram)
      requires ram.Valid() && Holds(src) && Holds(task) && src != task && src.space.pgd != 0
      requires ram.free != {} ==> Valid() && FitsArrays(task.space, VpnOf(va))
      requires ram.free != {} ==>
        var readable := Readable(RamOf(ram), src.space, task.space, VpnOf(va)); readable
      modifies this, ram, ram.page_bitmap, task
      ensures ram.Valid() && Holds(task)
      ensures var w, r := old(world), old(RamOf(ram));
        var ends := CopyEndsFor(w, r, world, r1, RamOf(ram), src, task, va, kernel_adr, stopped); ends
    {
      ghost var w, r := world, RamOf(ram);
      var ttbr0 := src.pagedirectory;
      var overrun;
      kernel_adr, stopped, overrun := AllocateUserPage(task, va);
      r1 := RamOf(ram);
      if kernel_adr != 0 {
        stopped := FinishCopy(src, ttbr0, task, va, kernel_adr, stopped, w, r, world, r1);
      } else {
        SameEntry(w, task, task.space);
      }
    }

    /** The page is there; now it is filled. */
    method FinishCopy(ghost src: AddressSpace, ttbr0: int, task: AddressSpace, va: Word, kernel_adr: int, before: bool,
            ghost w: map<AddressSpace, Space>, ghost r: Ram, ghost w1: map<AddressSpace, Space>, ghost r1: Ram)
      returns (stopped: bool)
      requires ram.Valid() && src != task && src in w && w[src].pgd == ttbr0 && ttbr0 != 0
      requires Holds(task) && task in w && task in w1 && w1 == w[task := w1[task]] && kernel_adr != 0 && r.free != {}
      requires w1 == world && r1 == RamOf(ram)
      requires var readable := Readable(r, w[src], w[task], VpnOf(va)); readable
      requires var page := kernel_adr - VIRTUAL_ADDRESS_START;
        var taken := TookForWorld(w, r, w1, r1, task, va, page, before); taken
      modifies ram`memory
      ensures ram.Valid() && Holds(task)
      ensures var ends := CopyEndsFor(w, r, w1, r1, RamOf(ram), src, task, va, kernel_adr, stopped); ends
    {
      stopped := FillCopy(ttbr0, kernel_adr, va, before, w[src]);
      CopiedFor(w, r, w1, r1, RamOf(ram), src, task, va, kernel_adr, !before, stopped);
    }

    /** The new page filled from the parent's, unless the kernel has stopped before. */
    method FillCopy(ttbr0: int, kernel_adr: int, va: Word, before: bool, ghost src: Space) returns (stopped: bool)
      requires ram.Valid() && src.pgd == ttbr0 && ttbr0 != 0
      modifies ram`memory
      ensures ram.Valid()
      ensures var page := kernel_adr - VIRTUAL_ADDRESS_START;
        var ends := FillEnds(src, VpnOf(va), old(RamOf(ram)), page, RamOf(ram), !before, stopped); ends
    {
      stopped := before;
      if !before {
        stopped := Memcpy(kernel_adr, ttbr0, va, src);
      }
    }

    /** The body of the loop of `copy_virtual_memory`. */
    method CopyEntry(src: AddressSpace, task: AddressSpace, i: nat, ghost w0: map<AddressSpace, Space>, ghost r0: Ram)
      returns (copied: bool, stopped: bool)
      requires ram.Valid() && Holds(src) && Holds(task) && src != task && src in w0 && w0[src] == src.space
      requires var started := WorldOk(w0, r0.memory, r0.used); started
      requires var going := Going(w0, r0, world, RamOf(ram), src, task, i); going
      requires i < |src.space.user| && UserAddress(src.space.user[i].virtual_adr)
      modifies this, ram, ram.page_bitmap, task
      ensures ram.Valid() && Holds(src) && Holds(task)
      ensures !copied ==> !stopped && ram.free == {} && RamOf(ram) == old(RamOf(ram)) && world == old(world)
      ensures copied && !stopped ==> var going := Going(w0, r0, world, RamOf(ram), src, task, i + 1); going
      ensures stopped ==> var spoilt := Spoilt(w0, r0, world, RamOf(ram), src, task, i + 1); spoilt
    {
      ghost var w, r := world, RamOf(ram);
      var va := src.userpages[i].virtual_adr;
      assert va == src.space.user[i].virtual_adr;
      BeforeEntry(w0, r0, w, r, src, task, i);
      var kernel_adr;
      ghost var r1;
      kernel_adr, stopped, r1 := AllocateCopy(src, task, va);
      if kernel_adr == 0 {
        return false, false;
      }
      AfterCopy(w0, r0, w, r, src, task, i, world, r1, kernel_adr, RamOf(ram), stopped);
      return true, stopped;
    }

    /** `copy_virtual_memory`, from the current task `src` into a task with an empty address space, whatever the number
        of free pages. */
    method CopyVirtualMemory(src: AddressSpace, task: AddressSpace) returns (result: int, stopped: bool)
      requires Valid() && Holds(src) && Holds(task) && src != task && task.space.user == []
      requires forall k | 0 <= k < |src.space.user| :: UserAddress(src.space.user[k].virtual_adr)
      modifies this, ram, ram.page_bitmap, task
      ensures ram.Valid() && Holds(src) && Holds(task) && world == old(world)[task := task.space]
      // the world is well formed afterwards exactly if the pages did not run out at a table
      ensures SoundFor(task) <==> RunsOutCleanly(src.space.user, |old(ram.free)|)
      ensures SoundFor(task) ==> Valid() && !stopped
      // it reports success exactly if the pages last until the last entry is reached, even if not for its tables
      ensures !stopped ==> result == if LastReached(src.space.user, |old(ram.free)|) then 0 else -1
      ensures SoundFor(task) ==> (result == 0 <==> |old(ram.free)| >= CopyCost(src.space.user, |src.space.user|))
      // in a well-formed world a complete copy, and in any case the parent and every other task as before
      ensures SoundFor(task) && result == 0 ==>
        var copy := IsCopy(src.space, old(ram.memory), task.space, ram.memory); copy
      ensures SoundFor(task) && result == 0 ==>
        var at := IsCopyAt(src.space, old(ram.memory), task.space, ram.memory); at
      ensures SoundFor(task) ==> var same := OthersSame(old(world), old(ram.memory), ram.memory, task); same
      ensures SoundFor(task) ==> var kept := Keeps(old(ram.memory), ram.memory, old(ram.used)); kept
    {
      ghost var w0, r0, n := world, RamOf(ram), |src.space.user|;
      CopyStarts(w0, r0, src, task);
      var i := 0;
      stopped := false;
      while i < src.userpages_count
        invariant 0 <= i <= src.userpages_count && ram.Valid() && Holds(src) && Holds(task) && !stopped
        invariant var going := Going(w0, r0, world, RamOf(ram), src, task, i); going
      {
        var copied;
        copied, stopped := CopyEntry(src, task, i, w0, r0);
        if stopped {
          SpoiltOver(w0, r0, world, RamOf(ram), src, task, i + 1);
          return -1, true;
        }
        if !copied {
          CopyBreaksOff(w0, r0, world, RamOf(ram), src, task, i);
          return -1, false;
        }
        i := i + 1;
      }
      CopyEnds(w0, r0, world, RamOf(ram), src, task);
      if SoundFor(task) {
        CopyAt(src.space, r0.memory, task.space, ram.memory);
      }
      return 0, false;
    }
  }

  // ---------- From boot on ----------

  /** One page is mapped, at `va`, and as many pages are free as a copy of it takes. */
  ghost predicate OnePage(s: Space, r: Ram, va: Word) {
    && |s.user| == 1 && s.user[0].virtual_adr == va && Translate(r.memory, s, VpnOf(va)).Some?
    && |r.free| >= CopyCost(s.user, 1)
  }

  lemma FirstFits(s: Space, r: Ram, v: Vpn)
    requires s.tables == map[] && s.user == [] && |r.free| == MM_NUM_OF_PAGES
    ensures FitsArrays(s, v) && Enough(s, r, v)
  {
    assert s.tables.Keys + TablesFor(v) == TablesFor(v) && TablesFor(v) - s.tables.Keys == TablesFor(v);
  }

  lemma FirstAdded(s: Space, r: Ram, s': Space, r': Ram, va: Word, page: int)
    requires s.user == [] && |r.free| == MM_NUM_OF_PAGES && AddedTo(s, r, s', r', va, page)
    ensures OnePage(s', r', va)
  {
    OnePageCost(s'.user);
    assert s'.user[..1] == s'.user;
  }

  lemma CopyTranslates(src: Space, before: Memory, d: Space, after: Memory, v: Vpn)
    requires IsCopy(src, before, d, after) && Translate(before, src, v).Some?
    ensures Translate(after, d, v).Some? && Translate(after, d, v).value !in Owned(src)
  {
  }

  lemma EnoughForOne(s: Space, r: Ram, va: Word)
    requires (var one := OnePage(s, r, va); one) && UserAddress(va)
    ensures RunsOutCleanly(s.user, |r.free|) && |r.free| >= CopyCost(s.user, |s.user|)
    ensures (forall k | 0 <= k < |s.user| :: UserAddress(s.user[k].virtual_adr))
    ensures Translate(r.memory, s, VpnOf(va)).Some?
  {
  }

  /** A task, and a page for it. */
  method Boot(initial: Memory, va: Word) returns (kernel: Kernel, parent: AddressSpace)
    requires Backed(initial) && UserAddress(va)
    ensures fresh(kernel) && fresh(kernel.ram) && fresh(kernel.ram.page_bitmap) && fresh(parent)
    ensures kernel.Valid() && kernel.Holds(parent)
    ensures var one := OnePage(parent.space, RamOf(kernel.ram), va); one
  {
    kernel := new Kernel(initial);
    parent := kernel.NewTask();
    ghost var s, r := parent.space, RamOf(kernel.ram);
    AllFree(kernel.ram);
    FirstFits(s, r, VpnOf(va));
    var kernel_adr, stopped, overrun := kernel.AllocateUserPage(parent, va);
    FirstAdded(s, r, parent.space, RamOf(kernel.ram), va, kernel_adr - VIRTUAL_ADDRESS_START);
  }

  /** Then a fork: the child translates the page to a frame of its own. */
  method BootAndFork(initial: Memory, va: Word) returns (kernel: Kernel, parent: AddressSpace, child: AddressSpace)
    requires Backed(initial) && UserAddress(va)
    ensures fresh(kernel) && kernel.Valid() && kernel.Holds(parent) && kernel.Holds(child)
    ensures var frame := Translate(kernel.ram.memory, child.space, VpnOf(va));
      frame.Some? && frame.value !in Owned(parent.space)
  {
    kernel, parent := Boot(initial, va);
    child := kernel.NewTask();
    ghost var r := RamOf(kernel.ram);
    EnoughForOne(parent.space, r, va);
    var result, stopped := kernel.CopyVirtualMemory(parent, child);
    CopyTranslates(parent.space, r.memory, child.space, kernel.ram.memory, VpnOf(va));
  }

  lemma SameWorld<T>(w: map<T, Space>, t: T, memory: Memory, used: set<int>)
    requires t in w
    ensures (var ok := WorldOk(w, memory, used); ok) ==> var sound := WorldSound(w, t, memory, used); sound
  {
    if WorldOk(w, memory, used) {
      OkWorld(w, t, memory, used);
    }
  }

  /** How a page for the child and its copying end. */
  ghost predicate CopyEndsFor<T>(w: map<T, Space>, r: Ram, w': map<T, Space>, r1: Ram, r': Ram, src: T, t: T,
      va: Word, kernel_adr: int, stopped: bool)
    requires t in w && t in w' && src in w
  {
    var page := kernel_adr - VIRTUAL_ADDRESS_START;
    && w' == w[t := w'[t]]
    && (kernel_adr == 0 <==> r.free == {})
    && (kernel_adr == 0 ==> !stopped && r' == r && w' == w)
    && (kernel_adr != 0 ==>
          if Enough(w[t], r, VpnOf(va)) then
            && !stopped && WorldOk(w', r1.memory, r1.used) && Added(w, r, w', r1, t, va, page)
            && Filled(w[src], VpnOf(va), r1, page, r')
          else
            NullListed(w'[t]) && r'.free == {})
  }

  /** The page was taken (`took`), and then filled from the parent's (`stopped` if that could not be read). */
  ghost predicate FillEnds(src: Space, v: Vpn, r1: Ram, page: int, r': Ram, took: bool, stopped: bool) {
    var from := Translate(r1.memory, src, v);
    if took then
      && (stopped <==> from == None || from.value !in r1.memory)
      && r' == if stopped then r1 else r1.(memory := r1.memory[page := r1.memory[from.value]])
    else stopped && r' == r1
  }

  lemma CopiedFor<T>(w: map<T, Space>, r: Ram, w1: map<T, Space>, r1: Ram, r': Ram, src: T, t: T, va: Word,
          kernel_adr: int, took: bool, stopped: bool)
    requires src in w && t in w && t in w1 && src != t && w1 == w[t := w1[t]] && kernel_adr != 0 && r.free != {}
    requires var readable := Readable(r, w[src], w[t], VpnOf(va)); readable
    requires var page := kernel_adr - VIRTUAL_ADDRESS_START;
      var taken := TookForWorld(w, r, w1, r1, t, va, page, !took); taken
    requires FillEnds(w[src], VpnOf(va), r1, kernel_adr - VIRTUAL_ADDRESS_START, r', took, stopped)
    ensures var ends := CopyEndsFor(w, r, w1, r1, r', src, t, va, kernel_adr, stopped); ends
  {
    if Enough(w[t], r, VpnOf(va)) {
      StillReadable(w, r, w1, r1, src, t, va, kernel_adr - VIRTUAL_ADDRESS_START);
    }
  }

  /** What round `i` of the copy starts with. */
  lemma BeforeEntry<T>(w0: map<T, Space>, r0: Ram, w: map<T, Space>, r: Ram, src: T, t: T, i: nat)
    requires src in w0 && (var started := WorldOk(w0, r0.memory, r0.used); started) && src != t
    requires (var going := Going(w0, r0, w, r, src, t, i); going) && i < |w0[src].user|
    requires |w0[src].kernel| < MAX_PROCESS_PAGES && |w0[src].user| <= MAX_PROCESS_PAGES
    ensures t in w && src in w && w[src] == w0[src] && w0[src].pgd != 0
    ensures r.free != {} ==> FitsArrays(w[t], VpnOf(w0[src].user[i].virtual_adr))
    ensures r.free != {} ==>
      var readable := Readable(r, w[src], w[t], VpnOf(w0[src].user[i].virtual_adr)); readable
    ensures r.free != {} ==> var ok := WorldOk(w, r.memory, r.used); ok
  {
    HasDirectory(w0, r0, src);
    if r.free != {} {
      CopyCanGoOn(w0, r0, w, r, src, t, i);
      ParentPage(w0, r0, w, r, src, t, i);
    }
  }

  lemma HasDirectory<T>(w: map<T, Space>, r: Ram, t: T)
    requires t in w && WorldOk(w, r.memory, r.used) && w[t].user != []
    ensures w[t].pgd != 0
  {
    SpaceFacts(w, r.memory, r.used, t);
    TableBound(w[t].user);
    assert SpaceOk(w[t], r.memory, r.used);
  }

  /** Round `i` over: one more page is copied, or the pages ran out at a table. */
  lemma AfterCopy<T>(w0: map<T, Space>, r0: Ram, w: map<T, Space>, r: Ram, src: T, t: T, i: nat, w1: map<T, Space>,
          r1: Ram, kernel_adr: int, r': Ram, stopped: bool)
    requires src in w0 && (var started := WorldOk(w0, r0.memory, r0.used); started) && src != t && r.used !! r.free
    requires (var going := Going(w0, r0, w, r, src, t, i); going) && i < |w0[src].user| && kernel_adr != 0
    requires |w0[src].kernel| < MAX_PROCESS_PAGES && |w0[src].user| <= MAX_PROCESS_PAGES
    requires t in w && src in w && t in w1
    requires CopyEndsFor(w, r, w1, r1, r', src, t, w0[src].user[i].virtual_adr, kernel_adr, stopped)
    ensures !stopped ==> var going := Going(w0, r0, w1, r', src, t, i + 1); going
    ensures stopped ==> var spoilt := Spoilt(w0, r0, w1, r', src, t, i + 1); spoilt
  {
    CopyCanGoOn(w0, r0, w, r, src, t, i);
    if Enough(w[t], r, VpnOf(w0[src].user[i].virtual_adr)) {
      CopyStep(w0, r0, w, r, src, t, i, w1, r1, kernel_adr - VIRTUAL_ADDRESS_START, r');
    } else {
      CostSoFar(w0, r0, w, r, src, t, i);
      OneChanged(w0, w, w1, t);
    }
  }

  lemma CostSoFar<T>(w0: map<T, Space>, r0: Ram, w: map<T, Space>, r: Ram, src: T, t: T, i: nat)
    requires src in w0 && Copying(w0, r0, w, r, src, t, i)
    ensures |r.free| + CopyCost(w0[src].user, i) == |r0.free| && t in w && w == w0[t := w[t]]
  {
  }

  method ReadFaultStatus(esr: bv64) returns (translation_fault: bool)
    ensures translation_fault <==> IsTranslationFault(esr)
  {
    var dfs := esr & 63;
    translation_fault := (dfs & 60) == 4;
  }

  /** The fault status code of a Data Abort, the low six bits of ESR_EL1: a translation fault at level 0
      to 3 is 0b000100 to 0b000111. */
  predicate IsTranslationFault(esr: bv64) {
    esr & 63 == 4 || esr & 63 == 5 || esr & 63 == 6 || esr & 63 == 7
  }

  lemma SameEntry<K, V>(m: map<K, V>, k: K, v: V)
    requires k in m && m[k] == v
    ensures m[k := v] == m
  {
  }

  /** Masking the offset keeps the page. */
  lemma SamePage(addr: Word)
    ensures VpnOf(PageBase(addr)) == VpnOf(addr)
  {
    var a := PageBase(addr);
    assert a / 0x1000 == addr / 0x1000;
    SameVpn(a, addr);
  }

  lemma EmptySpaceOk<T>(w: map<T, Space>, t: T, memory: Memory, used: set<int>)
    requires WorldOk(w, memory, used) && t !in w
    ensures WorldOk(w[t := Space(0, [], [], map[])], memory, used)
  {
    var s := Space(0, [], [], map[]);
    assert Owned(s) == {};
    assert SpaceOk(s, memory, used);
    WorldWith(w, t, s, memory, used);
  }
}
