/** All address spaces together: which frames they own, and what adding a page to one of them does to
    the others. */
module Worlds {
  import opened PageTables
  import opened Wrappers
  import opened AddressSpaces
  import opened Paging

  /** Every space is well formed, and no frame belongs to two of them. */
  ghost predicate WorldOk<T>(w: map<T, Space>, memory: Memory, used: set<int>) {
    && (forall t {:trigger SpaceOk(w[t], memory, used)} | t in w :: SpaceOk(w[t], memory, used))
    && (forall t, u {:trigger Owned(w[t]), Owned(w[u])} | t in w && u in w && t != u :: Owned(w[t]) !! Owned(w[u]))
  }

  /** What one space of a well-formed world guarantees, without its tree. */
  lemma SpaceFacts<T>(w: map<T, Space>, memory: Memory, used: set<int>, t: T)
    requires WorldOk(w, memory, used) && t in w
    ensures w[t].tables.Keys == TablesNeeded(w[t].user) && |w[t].kernel| == |TablesNeeded(w[t].user)|
    ensures UserFrames(w[t].user) !! w[t].tables.Values && Owned(w[t]) <= used
  {
    assert SpaceOk(w[t], memory, used);
  }

  /** The state after a fresh page was taken from the allocator. */
  ghost predicate Taken(r: Ram, r': Ram, page: int) {
    && PageAddress(page) && page in r.free && page !in r.used
    && r' == Ram(r.memory[page := ZeroWords()], r.used + {page}, r.free - {page})
  }

  lemma TakenKeeps(r: Ram, r': Ram, page: int, keep: set<int>)
    requires Taken(r, r', page) && keep <= r.used
    ensures Keeps(r.memory, r'.memory, keep)
  {
  }

  /** A page taken but not yet mapped disturbs no space. */
  lemma TakenOne(s: Space, r: Ram, r': Ram, page: int)
    requires SpaceOk(s, r.memory, r.used) && Taken(r, r', page)
    ensures SpaceOk(s, r'.memory, r'.used) && page !in Owned(s) && Owned(s) <= r.used
    ensures forall v :: Translate(r'.memory, s, v) == Translate(r.memory, s, v)
  {
    TakenKeeps(r, r', page, Owned(s));
    SpaceFrame(s, r.memory, r'.memory, r.used, r'.used);
  }

  lemma TakenOk<T>(w: map<T, Space>, r: Ram, r': Ram, page: int)
    requires WorldOk(w, r.memory, r.used) && Taken(r, r', page)
    ensures var ok := WorldOk(w, r'.memory, r'.used); ok
    ensures forall t | t in w :: page !in Owned(w[t])
  {
    forall t | t in w
      ensures SpaceOk(w[t], r'.memory, r'.used) && page !in Owned(w[t])
    {
      TakenOne(w[t], r, r', page);
    }
  }

  /** What mapping the fresh page `page` at `va` does to the space itself: that page is mapped to a zeroed
      frame, every other page translates as before, and nothing in use changes but the space's tables. */
  ghost predicate AddedTo(s: Space, r: Ram, s': Space, r': Ram, va: Word, page: int) {
    && s'.user == s.user + [UserPage(page, va)]
    && page in r.free && page in r'.memory && r'.memory[page] == ZeroWords()
    && (forall v :: Translate(r'.memory, s', v) == if v == VpnOf(va) then Some(page) else Translate(r.memory, s, v))
    && Keeps(r.memory, r'.memory, r.used - s.tables.Values)
    && r.used <= r'.used && r'.free <= r.free
    && Owned(s') - Owned(s) <= r.free
    && |r'.free| + 1 + |TablesNeeded(s'.user)| == |r.free| + |TablesNeeded(s.user)|
  }

  /** The same at every address: those of the page, which agree with `va` on bits 47 to 12, translate to the frame, and
      all others as before. */
  ghost predicate MapsAt(memory: Memory, s: Space, memory': Memory, s': Space, va: Word, page: int) {
    forall a: Word {:trigger TranslateAt(memory', s', a)} ::
      TranslateAt(memory', s', a) ==
        if a / 0x1000 % 0x10_0000_0000 == va / 0x1000 % 0x10_0000_0000 then Some(page) else TranslateAt(memory, s, a)
  }

  lemma AddedAt(s: Space, r: Ram, s': Space, r': Ram, va: Word, page: int)
    requires AddedTo(s, r, s', r', va, page)
    ensures MapsAt(r.memory, s, r'.memory, s', va, page)
  {
    forall a: Word
      ensures TranslateAt(r'.memory, s', a) ==
        if a / 0x1000 % 0x10_0000_0000 == va / 0x1000 % 0x10_0000_0000 then Some(page) else TranslateAt(r.memory, s, a)
    {
      TranslatesAt(r'.memory, s', a);
      TranslatesAt(r.memory, s, a);
      SameVpn(a, va);
    }
  }

  /** ... and to all spaces: no other space translates any page differently. */
  ghost predicate Added<T>(w: map<T, Space>, r: Ram, w': map<T, Space>, r': Ram, t: T, va: Word, page: int)
    requires t in w && t in w'
  {
    && w' == w[t := w'[t]]
    && AddedTo(w[t], r, w'[t], r', va, page)
    && (forall u, v | u in w && u != t :: Translate(r'.memory, w[u], v) == Translate(r.memory, w[u], v))
  }

  /** The other spaces, when one space maps a page. */
  lemma OthersKeep(s: Space, r: Ram, r': Ram, o: Space)
    requires SpaceOk(o, r.memory, r.used) && Owned(o) !! s.tables.Values
    requires Keeps(r.memory, r'.memory, r.used - s.tables.Values) && r.used <= r'.used
    ensures SpaceOk(o, r'.memory, r'.used)
    ensures forall v :: Translate(r'.memory, o, v) == Translate(r.memory, o, v)
  {
    assert Owned(o) <= r.used - s.tables.Values;
    SpaceFrame(o, r.memory, r'.memory, r.used, r'.used);
  }

  /** The frames of the space that maps a page come from its old ones, the page, and the free pages. */
  lemma OwnedAfter(s: Space, r: Ram, s': Space, r': Ram, va: Word, page: int)
    requires Maps(s, r, s', r', va, page)
    ensures Owned(s') - Owned(s) <= r.free + {page}
  {
    UserFramesGrow(s.user, UserPage(page, va));
  }

  lemma OneOther(s: Space, r: Ram, s': Space, r': Ram, va: Word, page: int, o: Space)
    requires SpaceOk(o, r.memory, r.used) && Owned(o) !! Owned(s) && page !in Owned(o) && r.used !! r.free
    requires Maps(s, r, s', r', va, page)
    ensures SpaceOk(o, r'.memory, r'.used) && Owned(o) !! Owned(s')
    ensures forall v :: Translate(r'.memory, o, v) == Translate(r.memory, o, v)
  {
    OwnedAfter(s, r, s', r', va, page);
    OthersKeep(s, r, r', o);
  }

  lemma WorldWith<T>(w: map<T, Space>, t: T, s': Space, memory: Memory, used: set<int>)
    requires SpaceOk(s', memory, used)
    requires forall u | u in w && u != t :: SpaceOk(w[u], memory, used) && Owned(w[u]) !! Owned(s')
    requires forall u, v | u in w && v in w && u != v :: Owned(w[u]) !! Owned(w[v])
    ensures var ok := WorldOk(w[t := s'], memory, used); ok
  {
  }

  lemma WorldAfter<T>(w: map<T, Space>, r: Ram, t: T, s': Space, r': Ram, va: Word, page: int)
    requires WorldOk(w, r.memory, r.used) && t in w && r.used !! r.free
    requires SpaceOk(s', r'.memory, r'.used) && Maps(w[t], r, s', r', va, page)
    requires forall u | u in w :: page !in Owned(w[u])
    ensures var ok := WorldOk(w[t := s'], r'.memory, r'.used); ok
  {
    forall u | u in w && u != t
      ensures SpaceOk(w[u], r'.memory, r'.used) && Owned(w[u]) !! Owned(s')
    {
      OneOther(w[t], r, s', r', va, page, w[u]);
    }
    WorldWith(w, t, s', r'.memory, r'.used);
  }

  /** The space itself: its flat map gains the page. */
  lemma TranslateAfter(s: Space, r: Ram, s': Space, r': Ram, va: Word, page: int)
    requires SpaceOk(s, r.memory, r.used) && SpaceOk(s', r'.memory, r'.used)
    requires s'.user == s.user + [UserPage(page, va)]
    ensures forall v :: Translate(r'.memory, s', v) == if v == VpnOf(va) then Some(page) else Translate(r.memory, s, v)
  {
    Extend(s.user, UserPage(page, va));
    forall v
      ensures Translate(r'.memory, s', v) == if v == VpnOf(va) then Some(page) else Translate(r.memory, s, v)
    {
      TranslateIsReplay(r.memory, s, r.used, v);
      TranslateIsReplay(r'.memory, s', r'.used, v);
    }
  }

  /** Allocating a page and mapping it: no frame is shared afterwards, and no other mapping changes. */
  lemma PageAdded<T>(w: map<T, Space>, r: Ram, t: T, r1: Ram, s': Space, r': Ram, va: Word, page: int)
    requires (var ok := WorldOk(w, r.memory, r.used); ok) && t in w && r.used !! r.free && Taken(r, r1, page)
    requires var ok := SpaceOk(s', r'.memory, r'.used); ok
    requires var maps := Maps(w[t], r1, s', r', va, page); maps
    ensures var ok := WorldOk(w[t := s'], r'.memory, r'.used); ok
    ensures var added := Added(w, r, w[t := s'], r', t, va, page); added
  {
    WorldAdded(w, r, t, r1, s', r', va, page);
    SpaceIsOk(w, r.memory, r.used, t);
    AddedToSelf(w[t], r, r1, s', r', va, page);
    OthersTranslate(w, r, t, r1, s', r', va, page);
    AddedFrom(w, r, t, s', r', va, page);
  }

  lemma WorldAdded<T>(w: map<T, Space>, r: Ram, t: T, r1: Ram, s': Space, r': Ram, va: Word, page: int)
    requires (var ok := WorldOk(w, r.memory, r.used); ok) && t in w && r.used !! r.free && Taken(r, r1, page)
    requires var ok := SpaceOk(s', r'.memory, r'.used); ok
    requires var maps := Maps(w[t], r1, s', r', va, page); maps
    ensures var ok := WorldOk(w[t := s'], r'.memory, r'.used); ok
  {
    TakenOk(w, r, r1, page);
    WorldAfter(w, r1, t, s', r', va, page);
  }

  lemma AddedFrom<T>(w: map<T, Space>, r: Ram, t: T, s': Space, r': Ram, va: Word, page: int)
    requires t in w && var added := AddedTo(w[t], r, s', r', va, page); added
    requires forall u, v | u in w && u != t :: Translate(r'.memory, w[u], v) == Translate(r.memory, w[u], v)
    ensures var added := Added(w, r, w[t := s'], r', t, va, page); added
  {
  }

  lemma SpaceIsOk<T>(w: map<T, Space>, memory: Memory, used: set<int>, t: T)
    requires WorldOk(w, memory, used) && t in w
    ensures var ok := SpaceOk(w[t], memory, used); ok
  {
    assert SpaceOk(w[t], memory, used);
  }

  lemma OthersTranslate<T>(w: map<T, Space>, r: Ram, t: T, r1: Ram, s': Space, r': Ram, va: Word, page: int)
    requires WorldOk(w, r.memory, r.used) && t in w && r.used !! r.free && Taken(r, r1, page)
    requires var maps := Maps(w[t], r1, s', r', va, page); maps
    ensures forall u, v | u in w && u != t :: Translate(r'.memory, w[u], v) == Translate(r.memory, w[u], v)
  {
    forall u, v | u in w && u != t
      ensures Translate(r'.memory, w[u], v) == Translate(r.memory, w[u], v)
    {
      OtherTranslations(w[t], r, r1, s', r', va, page, w[u]);
    }
  }

  lemma OtherTranslations(s: Space, r: Ram, r1: Ram, s': Space, r': Ram, va: Word, page: int, o: Space)
    requires SpaceOk(o, r.memory, r.used) && Owned(o) !! Owned(s) && r.used !! r.free
    requires Taken(r, r1, page) && Maps(s, r1, s', r', va, page)
    ensures forall v :: Translate(r'.memory, o, v) == Translate(r.memory, o, v)
  {
    TakenOne(o, r, r1, page);
    OneOther(s, r1, s', r', va, page, o);
  }

  lemma AddedToSelf(s: Space, r: Ram, r1: Ram, s': Space, r': Ram, va: Word, page: int)
    requires (var ok := SpaceOk(s, r.memory, r.used); ok) && Taken(r, r1, page)
    requires var ok := SpaceOk(s', r'.memory, r'.used); ok
    requires var maps := Maps(s, r1, s', r', va, page); maps
    ensures var added := AddedTo(s, r, s', r', va, page); added
  {
    UserAfter(s, r1, s', r', va, page);
    TranslateThrough(s, r, r1, s', r', va, page);
    MapsThrough(s, r, r1, s', r', va, page);
    AddedToFrom(s, r, s', r', va, page);
  }

  lemma UserAfter(s: Space, r: Ram, s': Space, r': Ram, va: Word, page: int)
    requires Maps(s, r, s', r', va, page)
    ensures s'.user == s.user + [UserPage(page, va)]
  {
  }

  lemma TranslateThrough(s: Space, r: Ram, r1: Ram, s': Space, r': Ram, va: Word, page: int)
    requires (var ok := SpaceOk(s, r.memory, r.used); ok) && Taken(r, r1, page)
    requires var ok := SpaceOk(s', r'.memory, r'.used); ok
    requires s'.user == s.user + [UserPage(page, va)]
    ensures forall v :: Translate(r'.memory, s', v) == if v == VpnOf(va) then Some(page) else Translate(r.memory, s, v)
    ensures Owned(s) <= r.used
  {
    TakenOne(s, r, r1, page);
    TranslateAfter(s, r1, s', r', va, page);
  }

  /** What mapping keeps after taking the page, it keeps from before. */
  lemma MapsThrough(s: Space, r: Ram, r1: Ram, s': Space, r': Ram, va: Word, page: int)
    requires Taken(r, r1, page) && Owned(s) <= r.used && Maps(s, r1, s', r', va, page)
    ensures var keeps := Keeps(r.memory, r'.memory, r.used - s.tables.Values); keeps
    ensures page in r.free && page in r'.memory && r'.memory[page] == ZeroWords()
    ensures Owned(s') - Owned(s) <= r.free && r.used <= r'.used && r'.free <= r.free
    ensures |r'.free| + 1 + |TablesNeeded(s'.user)| == |r.free| + |TablesNeeded(s.user)|
    ensures s'.user == s.user + [UserPage(page, va)]
  {
    OwnedAfter(s, r1, s', r', va, page);
    KeepsThrough(s, r, r1, r', page);
  }

  lemma AddedToFrom(s: Space, r: Ram, s': Space, r': Ram, va: Word, page: int)
    requires var keeps := Keeps(r.memory, r'.memory, r.used - s.tables.Values); keeps
    requires page in r.free && page in r'.memory && r'.memory[page] == ZeroWords()
    requires Owned(s') - Owned(s) <= r.free && r.used <= r'.used && r'.free <= r.free
    requires |r'.free| + 1 + |TablesNeeded(s'.user)| == |r.free| + |TablesNeeded(s.user)|
    requires s'.user == s.user + [UserPage(page, va)]
    requires forall v :: Translate(r'.memory, s', v) == if v == VpnOf(va) then Some(page) else Translate(r.memory, s, v)
    ensures var added := AddedTo(s, r, s', r', va, page); added
  {
  }

  lemma KeepsThrough(s: Space, r: Ram, r1: Ram, r': Ram, page: int)
    requires Taken(r, r1, page) && Owned(s) <= r.used
    requires Keeps(r1.memory, r'.memory, r1.used - s.tables.Values)
    ensures Keeps(r.memory, r'.memory, r.used - s.tables.Values)
    ensures page in r'.memory && r'.memory[page] == ZeroWords()
  {
  }

  /** A store to a user frame changes no tree. */
  lemma StoreToFrame<T>(w: map<T, Space>, memory: Memory, used: set<int>, t: T, page: int, contents: Page)
    requires WorldOk(w, memory, used) && t in w && page in UserFrames(w[t].user)
    ensures var ok := WorldOk(w, memory[page := contents], used); ok
    ensures forall u, v | u in w :: Translate(memory[page := contents], w[u], v) == Translate(memory, w[u], v)
  {
    forall u | u in w
      ensures SpaceOk(w[u], memory[page := contents], used)
      ensures forall v :: Translate(memory[page := contents], w[u], v) == Translate(memory, w[u], v)
    {
      NoTableOf(w, memory, used, t, page, u);
      TablesFrame(w[u], memory, memory[page := contents], used);
    }
  }

  /** A user frame is no table of any task. */
  lemma NoTableOf<T>(w: map<T, Space>, memory: Memory, used: set<int>, t: T, page: int, u: T)
    requires WorldOk(w, memory, used) && t in w && u in w && page in UserFrames(w[t].user)
    ensures var ok := SpaceOk(w[u], memory, used); ok
    ensures page !in w[u].tables.Values
  {
    assert SpaceOk(w[u], memory, used) && SpaceOk(w[t], memory, used);
    assert page in Owned(w[t]);
  }

  /** A space depends on memory through its tables only. */
  lemma TablesFrame(s: Space, memory: Memory, memory': Memory, used: set<int>)
    requires SpaceOk(s, memory, used)
    requires Keeps(memory, memory', s.tables.Values) && memory.Keys <= memory'.Keys
    ensures SpaceOk(s, memory', used)
    ensures forall v :: Translate(memory', s, v) == Translate(memory, s, v)
  {
    OtherPages(memory, memory', s.tables, Replay(s.user));
    forall v
      ensures Translate(memory', s, v) == Translate(memory, s, v)
    {
      TranslateIsReplay(memory, s, used, v);
      TranslateIsReplay(memory', s, used, v);
    }
  }

  // ---------- What mapping one more page needs ----------

  /** One user page and the tables it needs can be had.  `map_page` itself never checks for a table. */
  ghost predicate Enough(s: Space, r: Ram, v: Vpn) {
    1 + |TablesFor(v) - s.tables.Keys| <= |r.free|
  }

  /** With the page taken there are too few for the tables exactly if there was not enough. */
  lemma TakenStarves(s: Space, r: Ram, r1: Ram, page: int, v: Vpn)
    requires Taken(r, r1, page)
    ensures Starved(s, r1, v) <==> !Enough(s, r, v)
  {
  }

  // ---------- Worlds with a null table ----------

  /** Some tree for space `t` makes the world well formed. */
  ghost predicate WorldSound<T>(w: map<T, Space>, t: T, memory: Memory, used: set<int>)
    requires t in w
  {
    exists tables: map<TableId, int> :: WorldOk(w[t := w[t].(tables := tables)], memory, used)
  }

  lemma NullWorld<T>(w: map<T, Space>, t: T, memory: Memory, used: set<int>)
    requires t in w && NullListed(w[t])
    ensures var sound := WorldSound(w, t, memory, used); !sound
  {
    forall tables: map<TableId, int>
      ensures !WorldOk(w[t := w[t].(tables := tables)], memory, used)
    {
      var w' := w[t := w[t].(tables := tables)];
      NullNotOk(w'[t], memory, used);
    }
  }

  lemma OkWorld<T>(w: map<T, Space>, t: T, memory: Memory, used: set<int>)
    requires t in w && WorldOk(w, memory, used)
    ensures var sound := WorldSound(w, t, memory, used); sound
  {
    var s := w[t];
    assert w[t := s.(tables := s.tables)] == w;
  }
}
