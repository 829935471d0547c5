/** `copy_virtual_memory` on values: what the copying loop keeps, what it costs, and what it achieves. */
module Fork {
  import opened Collections
  import opened PageTables
  import opened AddressSpaces
  import opened Paging
  import opened Worlds

  /** The user half of the address space, translated through TTBR0; `memcpy` copies one aligned page. */
  predicate UserAddress(va: Word) {
    va < 0x1_0000_0000_0000 && va % PAGE_SIZE == 0
  }

  /** The pages that copying the first `i` entries takes: one for each, and one for each table needed. */
  ghost function CopyCost(user: seq<UserPage>, i: nat): nat
    requires i <= |user|
  {
    i + |TablesNeeded(user[..i])|
  }

  lemma CostGrows(user: seq<UserPage>, i: nat, j: nat)
    requires i < j <= |user|
    ensures CopyCost(user, i) < CopyCost(user, j)
  {
    TablesGrow(user, i, j);
    SubsetSize(TablesNeeded(user[..i]), TablesNeeded(user[..j]));
  }

  /** The free pages last for the whole copy, or run out exactly when some user page is asked for.  Otherwise they run
      out at a table, which `map_page` does not check. */
  ghost predicate RunsOutCleanly(user: seq<UserPage>, free: nat) {
    free >= CopyCost(user, |user|) || exists k: nat :: k < |user| && free == CopyCost(user, k)
  }

  /** The pages last until the last entry is reached: then the copy reports success, whether or not they last for it. */
  ghost predicate LastReached(user: seq<UserPage>, free: nat) {
    user == [] || free > CopyCost(user, |user| - 1)
  }

  lemma OnePageCost(user: seq<UserPage>)
    requires |user| == 1
    ensures CopyCost(user, 0) == 0 && CopyCost(user, 1) == 5
  {
    assert user[..1] == user && user[..0] == [];
    assert TablesNeeded(user) == {} + TablesFor(VpnOf(user[0].virtual_adr)) == TablesFor(VpnOf(user[0].virtual_adr));
  }

  /** For a parent of one page: with one to four free pages the copy runs out at a table, and reports success. */
  lemma OnePageCopy(user: seq<UserPage>, free: nat)
    requires |user| == 1
    ensures RunsOutCleanly(user, free) <==> free == 0 || free >= 5
    ensures 1 <= free <= 4 ==> LastReached(user, free) && !RunsOutCleanly(user, free)
  {
    OnePageCost(user);
    if RunsOutCleanly(user, free) && free < 5 {
      var k: nat :| k < |user| && free == CopyCost(user, k);
      assert k == 0;
    }
  }

  lemma NotAtCost(user: seq<UserPage>, free: nat, i: nat, k: nat)
    requires i < |user| && k <= |user| && CopyCost(user, i) < free < CopyCost(user, i + 1)
    ensures if k <= i then CopyCost(user, k) < free else free < CopyCost(user, k)
  {
    if k < i {
      CostGrows(user, k, i);
    } else if k > i + 1 {
      CostGrows(user, i + 1, k);
    }
  }

  /** Between two costs the pages do not run out cleanly; at a cost they do. */
  lemma BetweenCosts(user: seq<UserPage>, free: nat, i: nat)
    requires i < |user| && CopyCost(user, i) < free < CopyCost(user, i + 1)
    ensures !RunsOutCleanly(user, free)
    ensures LastReached(user, free) <==> i + 1 == |user|
  {
    NotAtCost(user, free, i, |user|);
    NotAtCost(user, free, i, |user| - 1);
    if RunsOutCleanly(user, free) {
      var k: nat :| k < |user| && free == CopyCost(user, k);
      NotAtCost(user, free, i, k);
      assert false;
    }
  }

  lemma AtCost(user: seq<UserPage>, free: nat, i: nat)
    requires i < |user| && free == CopyCost(user, i)
    ensures RunsOutCleanly(user, free) && !LastReached(user, free) && free < CopyCost(user, |user|)
  {
    CostGrows(user, i, |user|);
    if i < |user| - 1 {
      CostGrows(user, i, |user| - 1);
    }
  }

  lemma AboveCost(user: seq<UserPage>, free: nat)
    requires free >= CopyCost(user, |user|)
    ensures RunsOutCleanly(user, free) && LastReached(user, free)
  {
    if user != [] {
      CostGrows(user, |user| - 1, |user|);
    }
  }

  /** The loop invariant of the copy, after `i` entries. */
  ghost predicate Copied(src: Space, r0: Ram, d: Space, r: Ram, i: nat)
    requires i <= |src.user|
  {
    && |d.user| == i
    && (forall k | 0 <= k < i :: d.user[k].virtual_adr == src.user[k].virtual_adr)
    && (forall k | 0 <= k < i :: SameContents(src, r0.memory, d.user[k], r.memory))
    && Keeps(r0.memory, r.memory, r0.used)
    && r0.used <= r.used && r.free <= r0.free
    && Owned(d) <= r0.free
    && |r.free| + CopyCost(src.user, i) == |r0.free|
  }

  /** The copy of a page holds what the parent read at that address. */
  ghost predicate SameContents(src: Space, before: Memory, p: UserPage, after: Memory) {
    && p.physical_adr in after
    && var from := Translate(before, src, VpnOf(p.virtual_adr));
       from.Some? && from.value in before && after[p.physical_adr] == before[from.value]
  }

  /** The child maps exactly the parent's pages, each to a frame of its own with the same contents. */
  ghost predicate IsCopy(src: Space, before: Memory, d: Space, after: Memory) {
    && (forall v :: Translate(after, d, v).Some? <==> Translate(before, src, v).Some?)
    && (forall v | Translate(before, src, v).Some? ::
          var from, to := Translate(before, src, v).value, Translate(after, d, v).value;
          to !in Owned(src) && from in before && to in after && after[to] == before[from])
  }

  /** The same at every address of the processor. */
  ghost predicate IsCopyAt(src: Space, before: Memory, d: Space, after: Memory) {
    forall a: Word {:trigger TranslateAt(after, d, a)} ::
      var from, to := TranslateAt(before, src, a), TranslateAt(after, d, a);
      && (to.Some? <==> from.Some?)
      && (from.Some? ==>
            && to.value !in Owned(src) && from.value in before && to.value in after
            && after[to.value] == before[from.value])
  }

  lemma CopyAt(src: Space, before: Memory, d: Space, after: Memory)
    requires IsCopy(src, before, d, after)
    ensures var at := IsCopyAt(src, before, d, after); at
  {
    forall a: Word
      ensures TranslateAt(after, d, a) == Translate(after, d, VpnOf(a))
      ensures TranslateAt(before, src, a) == Translate(before, src, VpnOf(a))
    {
      TranslatesAt(after, d, a);
      TranslatesAt(before, src, a);
    }
  }

  /** A complete copy: also when the parent's list names a page more than once. */
  lemma CopiedIsCopy(src: Space, r0: Ram, d: Space, r: Ram)
    requires SpaceOk(src, r0.memory, r0.used) && SpaceOk(d, r.memory, r.used)
    requires r0.used !! r0.free && Copied(src, r0, d, r, |src.user|)
    ensures IsCopy(src, r0.memory, d, r.memory)
  {
    SameTables(d.user, src.user);
    forall v
      ensures Translate(r.memory, d, v).Some? <==> Translate(r0.memory, src, v).Some?
    {
      TranslateIsReplay(r0.memory, src, r0.used, v);
      TranslateIsReplay(r.memory, d, r.used, v);
      assert v in Replay(d.user).Keys <==> v in Replay(src.user).Keys;
    }
    forall v | Translate(r0.memory, src, v).Some?
      ensures var from, to := Translate(r0.memory, src, v).value, Translate(r.memory, d, v).value;
              to !in Owned(src) && from in r0.memory && to in r.memory && r.memory[to] == r0.memory[from]
    {
      CopiedPage(src, r0, d, r, v);
    }
  }

  lemma CopiedPage(src: Space, r0: Ram, d: Space, r: Ram, v: Vpn)
    requires SpaceOk(src, r0.memory, r0.used) && SpaceOk(d, r.memory, r.used)
    requires r0.used !! r0.free && Copied(src, r0, d, r, |src.user|)
    requires Translate(r0.memory, src, v).Some? && Translate(r.memory, d, v).Some?
    ensures var from, to := Translate(r0.memory, src, v).value, Translate(r.memory, d, v).value;
            to !in Owned(src) && from in r0.memory && to in r.memory && r.memory[to] == r0.memory[from]
  {
    TranslateIsReplay(r.memory, d, r.used, v);
    ReplayFromList(d.user);
    var k :| 0 <= k < |d.user| && VpnOf(d.user[k].virtual_adr) == v && Replay(d.user)[v] == d.user[k].physical_adr;
    assert SameContents(src, r0.memory, d.user[k], r.memory);
    assert d.user[k].physical_adr in UserFrames(d.user);
    assert Owned(src) <= r0.used;
  }

  /** One more entry: the page added at the next address, then filled from the parent. */
  lemma CopyOne(src: Space, r0: Ram, d: Space, r: Ram, i: nat, d': Space, r1: Ram, page: int, r': Ram)
    requires i < |src.user| && Copied(src, r0, d, r, i) && r0.used !! r0.free
    requires AddedTo(d, r, d', r1, src.user[i].virtual_adr, page)
    requires UserFrames(d.user) !! d.tables.Values && Owned(d) <= r.used && page !in r.used
    requires var from := Translate(r0.memory, src, VpnOf(src.user[i].virtual_adr));
      from.Some? && from.value in r0.memory && r' == r1.(memory := r1.memory[page := r0.memory[from.value]])
    ensures Copied(src, r0, d', r', i + 1)
  {
    var va := src.user[i].virtual_adr;
    KeepThrough(r0, d, r, r1, page, r'.memory[page]);
    forall k | 0 <= k < i + 1
      ensures d'.user[k].virtual_adr == src.user[k].virtual_adr && SameContents(src, r0.memory, d'.user[k], r'.memory)
    {
      if k < i {
        assert d'.user[k] == d.user[k];
        EarlierPage(src, r0, d, r, k, r1, page, r'.memory[page]);
      } else {
        assert d'.user[k] == UserPage(page, va);
      }
    }
    CostStep(src.user, i, d, d');
    assert Owned(d') <= r0.free;
  }

  /** Nothing that was in use at the start of the copy changes. */
  lemma KeepThrough(r0: Ram, d: Space, r: Ram, r1: Ram, page: int, contents: Page)
    requires r0.used !! r0.free && page in r0.free && Owned(d) <= r0.free && r0.used <= r.used
    requires Keeps(r0.memory, r.memory, r0.used) && Keeps(r.memory, r1.memory, r.used - d.tables.Values)
    ensures Keeps(r0.memory, r1.memory[page := contents], r0.used)
  {
    assert r0.used <= r.used - d.tables.Values;
  }

  /** The pages copied earlier keep their contents. */
  lemma EarlierPage(src: Space, r0: Ram, d: Space, r: Ram, k: nat, r1: Ram, page: int, contents: Page)
    requires k < |d.user| && UserFrames(d.user) !! d.tables.Values && Owned(d) <= r.used && page !in r.used
    requires SameContents(src, r0.memory, d.user[k], r.memory)
    requires Keeps(r.memory, r1.memory, r.used - d.tables.Values)
    ensures SameContents(src, r0.memory, d.user[k], r1.memory[page := contents])
  {
    var a := d.user[k].physical_adr;
    assert a in UserFrames(d.user) && a in Owned(d) && a !in d.tables.Values && a in r.used;
  }

  lemma CostStep(user: seq<UserPage>, i: nat, d: Space, d': Space)
    requires i < |user| && |d.user| == i && |d'.user| == i + 1
    requires forall k | 0 <= k < i :: d.user[k].virtual_adr == user[k].virtual_adr
    requires forall k | 0 <= k < i + 1 :: d'.user[k].virtual_adr == user[k].virtual_adr
    ensures CopyCost(user, i + 1) - CopyCost(user, i) == 1 + |TablesNeeded(d'.user)| - |TablesNeeded(d.user)|
  {
    SameTables(d.user, user[..i]);
    SameTables(d'.user, user[..i + 1]);
  }

  // ---------- With all other tasks ----------

  /** No task but `t` translates any page differently. */
  ghost predicate OthersSame<T>(w: map<T, Space>, before: Memory, after: Memory, t: T) {
    forall u, v {:trigger Translate(after, w[u], v)} | u in w && u != t ::
      Translate(after, w[u], v) == Translate(before, w[u], v)
  }

  /** The whole invariant of the copy from `src` to `t`. */
  ghost predicate Copying<T>(w0: map<T, Space>, r0: Ram, w: map<T, Space>, r: Ram, src: T, t: T, i: nat)
    requires src in w0
  {
    && t in w && src in w && src != t && w[src] == w0[src] && w == w0[t := w[t]]
    && r0.used !! r0.free && i <= |w0[src].user|
    && Copied(w0[src], r0, w[t], r, i)
    && OthersSame(w0, r0.memory, r.memory, t)
  }

  lemma CopyStarts<T>(w0: map<T, Space>, r0: Ram, src: T, t: T)
    requires WorldOk(w0, r0.memory, r0.used) && r0.used !! r0.free
    requires src in w0 && t in w0 && src != t && w0[t].user == []
    ensures Copying(w0, r0, w0, r0, src, t, 0)
  {
    assert SpaceOk(w0[t], r0.memory, r0.used);
    TableBound(w0[t].user);
    assert TablesNeeded(w0[t].user) == {};
    assert w0[t].tables == map[];
    assert w0[src].user[..0] == [];
  }

  /** Where the parent's entry `i` is read from: the page that was there at the start. */
  lemma ParentPage<T>(w0: map<T, Space>, r0: Ram, w: map<T, Space>, r: Ram, src: T, t: T, i: nat)
    requires WorldOk(w0, r0.memory, r0.used) && src in w0 && Copying(w0, r0, w, r, src, t, i) && i < |w0[src].user|
    ensures Readable(r, w[src], w[t], VpnOf(w0[src].user[i].virtual_adr))
    ensures var from := Translate(r.memory, w[src], VpnOf(w0[src].user[i].virtual_adr));
      && from == Translate(r0.memory, w0[src], VpnOf(w0[src].user[i].virtual_adr))
      && from.value in r0.memory && r.memory[from.value] == r0.memory[from.value]
  {
    var s, v := w0[src], VpnOf(w0[src].user[i].virtual_adr);
    assert SpaceOk(s, r0.memory, r0.used);
    ReplayFromList(s.user);
    TranslateIsReplay(r0.memory, s, r0.used, v);
    var k :| 0 <= k < |s.user| && VpnOf(s.user[k].virtual_adr) == v && Replay(s.user)[v] == s.user[k].physical_adr;
    assert s.user[k].physical_adr in UserFrames(s.user);
    assert Translate(r.memory, w0[src], v) == Translate(r0.memory, w0[src], v);
  }

  /** The parent's page at `v` can be read, and is none of the child's tables. */
  ghost predicate Readable(r: Ram, src: Space, d: Space, v: Vpn) {
    var from := Translate(r.memory, src, v);
    from.Some? && from.value in r.memory && from.value in r.used && from.value !in d.tables.Values
  }

  /** Page `page` was filled from the parent's page at `v`. */
  ghost predicate Filled(src: Space, v: Vpn, r: Ram, page: int, r': Ram) {
    var from := Translate(r.memory, src, v);
    from.Some? && from.value in r.memory && r' == r.(memory := r.memory[page := r.memory[from.value]])
  }

  lemma StillReadable<T>(w: map<T, Space>, r: Ram, w1: map<T, Space>, r1: Ram, src: T, t: T, va: Word, page: int)
    requires src in w && t in w && t in w1 && src != t && Readable(r, w[src], w[t], VpnOf(va))
    requires Added(w, r, w1, r1, t, va, page)
    ensures var from := Translate(r1.memory, w[src], VpnOf(va));
      && from == Translate(r.memory, w[src], VpnOf(va)) && from.Some? && from.value in r1.memory
      && r1.memory[from.value] == r.memory[from.value]
  {
    assert Translate(r1.memory, w[src], VpnOf(va)) == Translate(r.memory, w[src], VpnOf(va));
  }

  /** Between two rounds: no page is free and none was over, or there is one, and it comes with its tables exactly if
      there were enough for one more entry from the start. */
  lemma CopyCanGoOn<T>(w0: map<T, Space>, r0: Ram, w: map<T, Space>, r: Ram, src: T, t: T, i: nat)
    requires src in w0 && WorldOk(w0, r0.memory, r0.used) && Copying(w0, r0, w, r, src, t, i) && i < |w0[src].user|
    requires WorldOk(w, r.memory, r.used)
    requires |w0[src].kernel| < MAX_PROCESS_PAGES && |w0[src].user| <= MAX_PROCESS_PAGES
    ensures r.free == {} <==> |r0.free| == CopyCost(w0[src].user, i)
    ensures FitsArrays(w[t], VpnOf(w0[src].user[i].virtual_adr))
    ensures Enough(w[t], r, VpnOf(w0[src].user[i].virtual_adr)) <==> |r0.free| >= CopyCost(w0[src].user, i + 1)
  {
    var user := w0[src].user;
    SpaceFacts(w, r.memory, r.used, t);
    SpaceFacts(w0, r0.memory, r0.used, src);
    NextCost(user, i, w[t]);
    PrefixTables(user, i + 1);
  }

  lemma PrefixTables(user: seq<UserPage>, i: nat)
    requires i <= |user|
    ensures |TablesNeeded(user[..i])| <= |TablesNeeded(user)|
  {
    assert user[..|user|] == user;
    TablesGrow(user, i, |user|);
    SubsetSize(TablesNeeded(user[..i]), TablesNeeded(user));
  }

  lemma NextCost(user: seq<UserPage>, i: nat, d: Space)
    requires i < |user| && |d.user| == i && d.tables.Keys == TablesNeeded(d.user)
    requires forall k | 0 <= k < i :: d.user[k].virtual_adr == user[k].virtual_adr
    ensures var v := VpnOf(user[i].virtual_adr);
      && TablesNeeded(user[..i + 1]) == d.tables.Keys + TablesFor(v)
      && CopyCost(user, i + 1) == CopyCost(user, i) + 1 + |TablesFor(v) - d.tables.Keys|
  {
    SameTables(d.user, user[..i]);
    Extend(user[..i], user[i]);
    assert user[..i + 1] == user[..i] + [user[i]];
    var need, have := TablesFor(VpnOf(user[i].virtual_adr)), d.tables.Keys;
    assert have + need == have + (need - have);
  }

  lemma StillOthersSame<T>(w0: map<T, Space>, w: map<T, Space>, m0: Memory, m: Memory, m1: Memory, m': Memory, t: T)
    requires t in w && w == w0[t := w[t]]
    requires OthersSame(w0, m0, m, t) && OthersSame(w, m, m1, t) && OthersSame(w, m1, m', t)
    ensures OthersSame(w0, m0, m', t)
  {
    forall u, v | u in w0 && u != t
      ensures Translate(m', w0[u], v) == Translate(m0, w0[u], v)
    {
      assert w0[u] == w[u];
      assert Translate(m, w0[u], v) == Translate(m0, w0[u], v);
      assert Translate(m1, w[u], v) == Translate(m, w[u], v);
      assert Translate(m', w[u], v) == Translate(m1, w[u], v);
    }
  }

  lemma CopyStepOthers<T>(w0: map<T, Space>, r0: Ram, w: map<T, Space>, r: Ram, t: T, va: Word, w1: map<T, Space>,
          r1: Ram, page: int, contents: Page)
    requires t in w && t in w1 && w == w0[t := w[t]] && WorldOk(w1, r1.memory, r1.used)
    requires OthersSame(w0, r0.memory, r.memory, t) && Added(w, r, w1, r1, t, va, page)
    ensures WorldOk(w1, r1.memory[page := contents], r1.used)
    ensures OthersSame(w0, r0.memory, r1.memory[page := contents], t)
  {
    StoreAfterAdd(w, r, w1, r1, t, va, page, contents);
    StillOthersSame(w0, w, r0.memory, r.memory, r1.memory, r1.memory[page := contents], t);
  }

  /** What fills the child's page is what the parent's page held at the start. */
  lemma FilledFromStart<T>(w0: map<T, Space>, r0: Ram, w: map<T, Space>, r: Ram, src: T, t: T, i: nat,
                           w1: map<T, Space>, r1: Ram, page: int, r': Ram)
    requires src in w0 && WorldOk(w0, r0.memory, r0.used) && t in w1
    requires Copying(w0, r0, w, r, src, t, i) && i < |w0[src].user|
    requires Added(w, r, w1, r1, t, w0[src].user[i].virtual_adr, page)
    requires Filled(w[src], VpnOf(w0[src].user[i].virtual_adr), r1, page, r')
    ensures var from := Translate(r0.memory, w0[src], VpnOf(w0[src].user[i].virtual_adr));
      from.Some? && from.value in r0.memory && r' == r1.(memory := r1.memory[page := r0.memory[from.value]])
  {
    ParentPage(w0, r0, w, r, src, t, i);
    StillReadable(w, r, w1, r1, src, t, w0[src].user[i].virtual_adr, page);
  }

  lemma OneChanged<T, S>(w0: map<T, S>, w: map<T, S>, w1: map<T, S>, t: T)
    requires t in w && t in w1 && w == w0[t := w[t]] && w1 == w[t := w1[t]]
    ensures w1 == w0[t := w1[t]]
  {
  }

  lemma CopyStepSelf<T>(w0: map<T, Space>, r0: Ram, w: map<T, Space>, r: Ram, src: T, t: T, i: nat,
                        w1: map<T, Space>, r1: Ram, page: int, r': Ram)
    requires src in w0 && WorldOk(w0, r0.memory, r0.used) && WorldOk(w, r.memory, r.used) && r.used !! r.free
    requires Copying(w0, r0, w, r, src, t, i) && i < |w0[src].user| && t in w1
    requires Added(w, r, w1, r1, t, w0[src].user[i].virtual_adr, page)
    requires Filled(w[src], VpnOf(w0[src].user[i].virtual_adr), r1, page, r')
    ensures Copied(w0[src], r0, w1[t], r', i + 1)
  {
    FilledFromStart(w0, r0, w, r, src, t, i, w1, r1, page, r');
    SpaceFacts(w, r.memory, r.used, t);
    CopyOne(w0[src], r0, w[t], r, i, w1[t], r1, page, r');
  }

  /** One round of the loop: the page added, and then filled from the parent's. */
  lemma CopyStep<T>(w0: map<T, Space>, r0: Ram, w: map<T, Space>, r: Ram, src: T, t: T, i: nat,
                    w1: map<T, Space>, r1: Ram, page: int, r': Ram)
    requires src in w0 && WorldOk(w0, r0.memory, r0.used) && WorldOk(w, r.memory, r.used) && r.used !! r.free
    requires Copying(w0, r0, w, r, src, t, i) && i < |w0[src].user|
    requires WorldOk(w1, r1.memory, r1.used) && t in w1
    requires Added(w, r, w1, r1, t, w0[src].user[i].virtual_adr, page)
    requires Filled(w[src], VpnOf(w0[src].user[i].virtual_adr), r1, page, r')
    ensures WorldOk(w1, r'.memory, r'.used)
    ensures Copying(w0, r0, w1, r', src, t, i + 1)
  {
    CopyStepSelf(w0, r0, w, r, src, t, i, w1, r1, page, r');
    OneChanged(w0, w, w1, t);
    CopyStepOthers(w0, r0, w, r, t, w0[src].user[i].virtual_adr, w1, r1, page, r'.memory[page]);
  }

  lemma StoreAfterAdd<T>(w: map<T, Space>, r: Ram, w1: map<T, Space>, r1: Ram, t: T, va: Word, page: int,
          contents: Page)
    requires t in w && t in w1 && WorldOk(w1, r1.memory, r1.used)
    requires Added(w, r, w1, r1, t, va, page)
    ensures WorldOk(w1, r1.memory[page := contents], r1.used)
    ensures OthersSame(w, r.memory, r1.memory, t) && OthersSame(w, r1.memory, r1.memory[page := contents], t)
  {
    UserFramesGrow(w[t].user, UserPage(page, va));
    StoreToFrame(w1, r1.memory, r1.used, t, page, contents);
    forall u, v | u in w && u != t
      ensures Translate(r1.memory[page := contents], w[u], v) == Translate(r1.memory, w[u], v)
    {
      assert w[u] == w1[u];
    }
  }

  // ---------- How the copy ends ----------

  /** In round `i - 1` the pages ran out at a table, and a null table is on the child's record. */
  ghost predicate Spoilt<T>(w0: map<T, Space>, r0: Ram, w: map<T, Space>, r: Ram, src: T, t: T, i: nat)
    requires src in w0
  {
    && t in w && w == w0[t := w[t]] && NullListed(w[t]) && r.free == {}
    && 0 < i <= |w0[src].user|
    && CopyCost(w0[src].user, i - 1) < |r0.free| < CopyCost(w0[src].user, i)
  }

  ghost predicate Going<T>(w0: map<T, Space>, r0: Ram, w: map<T, Space>, r: Ram, src: T, t: T, i: nat)
    requires src in w0
  {
    (WorldOk(w, r.memory, r.used) && Copying(w0, r0, w, r, src, t, i)) || Spoilt(w0, r0, w, r, src, t, i)
  }

  /** What holds when the copy is over, stopped, complete or not: the world is well formed exactly if the pages did not
      run out at a table, and then nothing that was in use differs. */
  ghost predicate Over<T>(w0: map<T, Space>, r0: Ram, w: map<T, Space>, r: Ram, src: T, t: T)
    requires src in w0 && t in w
  {
    var clean, sound := RunsOutCleanly(w0[src].user, |r0.free|), WorldSound(w, t, r.memory, r.used);
    && w == w0[t := w[t]] && (sound <==> clean)
    && (clean ==>
          WorldOk(w, r.memory, r.used) && OthersSame(w0, r0.memory, r.memory, t) && Keeps(r0.memory, r.memory, r0.used))
  }

  /** No page is left for entry `i`. */
  lemma CopyBreaksOff<T>(w0: map<T, Space>, r0: Ram, w: map<T, Space>, r: Ram, src: T, t: T, i: nat)
    requires src in w0 && Going(w0, r0, w, r, src, t, i) && i < |w0[src].user| && r.free == {} && t in w
    ensures Over(w0, r0, w, r, src, t)
    ensures !LastReached(w0[src].user, |r0.free|) && |r0.free| < CopyCost(w0[src].user, |w0[src].user|)
  {
    if Spoilt(w0, r0, w, r, src, t, i) {
      SpoiltOver(w0, r0, w, r, src, t, i);
      CostGrows(w0[src].user, i, |w0[src].user|);
    } else {
      AtCost(w0[src].user, |r0.free|, i);
      OkWorld(w, t, r.memory, r.used);
    }
  }

  lemma SpoiltOver<T>(w0: map<T, Space>, r0: Ram, w: map<T, Space>, r: Ram, src: T, t: T, i: nat)
    requires src in w0 && Spoilt(w0, r0, w, r, src, t, i)
    ensures !RunsOutCleanly(w0[src].user, |r0.free|) && Over(w0, r0, w, r, src, t)
    ensures LastReached(w0[src].user, |r0.free|) <==> i == |w0[src].user|
  {
    BetweenCosts(w0[src].user, |r0.free|, i - 1);
    NullWorld(w, t, r.memory, r.used);
  }

  /** The end of the loop. */
  lemma CopyEnds<T>(w0: map<T, Space>, r0: Ram, w: map<T, Space>, r: Ram, src: T, t: T)
    requires src in w0 && WorldOk(w0, r0.memory, r0.used) && Going(w0, r0, w, r, src, t, |w0[src].user|) && t in w
    ensures Over(w0, r0, w, r, src, t) && LastReached(w0[src].user, |r0.free|)
    ensures RunsOutCleanly(w0[src].user, |r0.free|) ==>
      IsCopy(w0[src], r0.memory, w[t], r.memory) && |r0.free| >= CopyCost(w0[src].user, |w0[src].user|)
  {
    if Spoilt(w0, r0, w, r, src, t, |w0[src].user|) {
      SpoiltOver(w0, r0, w, r, src, t, |w0[src].user|);
    } else {
      CopyComplete(w0, r0, w, r, src, t);
      AboveCost(w0[src].user, |r0.free|);
      OkWorld(w, t, r.memory, r.used);
    }
  }

  lemma CopyComplete<T>(w0: map<T, Space>, r0: Ram, w: map<T, Space>, r: Ram, src: T, t: T)
    requires src in w0 && WorldOk(w0, r0.memory, r0.used) && WorldOk(w, r.memory, r.used)
    requires Copying(w0, r0, w, r, src, t, |w0[src].user|)
    ensures IsCopy(w0[src], r0.memory, w[t], r.memory)
    ensures |r0.free| >= CopyCost(w0[src].user, |w0[src].user|)
  {
    assert SpaceOk(w0[src], r0.memory, r0.used) && SpaceOk(w[t], r.memory, r.used);
    CopiedIsCopy(w0[src], r0, w[t], r);
  }
}
