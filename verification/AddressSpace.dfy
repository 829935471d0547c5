/** What one task's `mm_t` (include/scheduler/task.h) means: a flat map replayed from its list of user
    pages, held by a tree of tables that its list of kernel pages enumerates. */
module AddressSpaces {
  import opened PageTables
  import opened Wrappers

  const MAX_PROCESS_PAGES := 16

  datatype UserPage = UserPage(physical_adr: int, virtual_adr: Word)

  /** The flat map of a list of mappings: a later mapping of a page replaces an earlier one. */
  ghost function Replay(user: seq<UserPage>): map<Vpn, int> {
    if user == [] then map[]
    else
      var last := user[|user| - 1];
      Replay(user[..|user| - 1])[VpnOf(last.virtual_adr) := last.physical_adr]
  }

  /** The tables that a list of mappings needs. */
  ghost function TablesNeeded(user: seq<UserPage>): set<TableId> {
    if user == [] then {}
    else TablesNeeded(user[..|user| - 1]) + TablesFor(VpnOf(user[|user| - 1].virtual_adr))
  }

  /** Every page of the flat map comes from some entry of the list, and every entry's page is mapped. */
  lemma {:induction false} ReplayFromList(user: seq<UserPage>)
    ensures forall k | 0 <= k < |user| :: VpnOf(user[k].virtual_adr) in Replay(user)
    ensures forall v | v in Replay(user) ::
      exists k :: 0 <= k < |user| && VpnOf(user[k].virtual_adr) == v && Replay(user)[v] == user[k].physical_adr
  {
    if user != [] {
      var n := |user| - 1;
      ReplayFromList(user[..n]);
      forall v | v in Replay(user)
        ensures exists k ::
          0 <= k < |user| && VpnOf(user[k].virtual_adr) == v && Replay(user)[v] == user[k].physical_adr
      {
        if v != VpnOf(user[n].virtual_adr) {
          var before := user[..n];
          var k :| 0 <= k < n && VpnOf(before[k].virtual_adr) == v && Replay(before)[v] == before[k].physical_adr;
          assert user[..n][k] == user[k];
        }
      }
      forall k | 0 <= k < |user|
        ensures VpnOf(user[k].virtual_adr) in Replay(user)
      {
        assert k < n ==> user[..n][k] == user[k];
      }
    }
  }

  /** One directory, and at most three more tables for each mapped page. */
  lemma {:induction false} TableBound(user: seq<UserPage>)
    ensures |TablesNeeded(user)| <= 1 + 3 * |user|
    ensures user != [] ==> Pgd in TablesNeeded(user)
  {
    if user != [] {
      var n := |user| - 1;
      TableBound(user[..n]);
      var v := VpnOf(user[n].virtual_adr);
      var more := {Pud(v.pgd), Pmd(v.pgd, v.pud), PteOf(v)};
      if n == 0 {
        assert TablesNeeded(user) == {Pgd} + more;
      } else {
        assert TablesNeeded(user) == TablesNeeded(user[..n]) + more;
      }
    }
  }

  /** No two pages share a table but the directory. */
  ghost predicate FarApart(user: seq<UserPage>) {
    forall i, j | 0 <= i < j < |user| :: VpnOf(user[i].virtual_adr).pgd != VpnOf(user[j].virtual_adr).pgd
  }

  lemma {:induction false} NoTablesAt(user: seq<UserPage>, v: Vpn)
    requires forall k | 0 <= k < |user| :: VpnOf(user[k].virtual_adr).pgd != v.pgd
    ensures TablesNeeded(user) !! {Pud(v.pgd), Pmd(v.pgd, v.pud), PteOf(v)}
  {
    if user != [] {
      assert forall k | 0 <= k < |user| - 1 :: user[..|user| - 1][k] == user[k];
      NoTablesAt(user[..|user| - 1], v);
      assert VpnOf(user[|user| - 1].virtual_adr).pgd != v.pgd;
    }
  }

  /** The bound is met by pages that are far apart. */
  lemma {:induction false} FarApartTables(user: seq<UserPage>)
    requires FarApart(user) && user != []
    ensures |TablesNeeded(user)| == 1 + 3 * |user|
  {
    var n := |user| - 1;
    var v := VpnOf(user[n].virtual_adr);
    var more := {Pud(v.pgd), Pmd(v.pgd, v.pud), PteOf(v)};
    if n == 0 {
      assert TablesNeeded(user) == {Pgd} + more;
    } else {
      assert forall k | 0 <= k < n :: user[..n][k] == user[k];
      FarApartTables(user[..n]);
      NoTablesAt(user[..n], v);
      TableBound(user[..n]);
      assert TablesNeeded(user) == TablesNeeded(user[..n]) + more;
    }
  }

  /** The tables needed depend on the virtual pages only. */
  lemma {:induction false} SameTables(a: seq<UserPage>, b: seq<UserPage>)
    requires |a| == |b|
    requires forall k | 0 <= k < |a| :: a[k].virtual_adr == b[k].virtual_adr
    ensures TablesNeeded(a) == TablesNeeded(b) && Replay(a).Keys == Replay(b).Keys
  {
    if a != [] {
      SameTables(a[..|a| - 1], b[..|b| - 1]);
    }
  }

  lemma {:induction false} TablesGrow(user: seq<UserPage>, i: nat, j: nat)
    requires i <= j <= |user|
    ensures TablesNeeded(user[..i]) <= TablesNeeded(user[..j])
    decreases j
  {
    if i < j {
      TablesGrow(user, i, j - 1);
      assert user[..j][..j - 1] == user[..j - 1];
    }
  }

  lemma Extend(user: seq<UserPage>, p: UserPage)
    ensures Replay(user + [p]) == Replay(user)[VpnOf(p.virtual_adr) := p.physical_adr]
    ensures TablesNeeded(user + [p]) == TablesNeeded(user) + TablesFor(VpnOf(p.virtual_adr))
  {
    assert (user + [p])[..|user|] == user;
  }

  /** The contents of an `mm_t`: the used parts of its arrays, and the tables they stand for. */
  datatype Space = Space(pgd: int, user: seq<UserPage>, kernel: seq<int>, tables: map<TableId, int>)

  ghost function UserFrames(user: seq<UserPage>): set<int> {
    set k | 0 <= k < |user| :: user[k].physical_adr
  }

  ghost function Owned(s: Space): set<int> {
    s.tables.Values + UserFrames(s.user)
  }

  /** The list enumerates the table frames: all of them, nothing else, none twice. */
  ghost predicate Enumerates<T>(kernel: seq<int>, tables: map<T, int>) {
    && |kernel| == |tables.Keys|
    && multiset(kernel) == multiset(tables.Values)
  }

  /** No frame plays two parts, and the counts and the directory fit the tables. */
  ghost predicate Separate(s: Space, used: set<int>) {
    && (s.pgd == 0 <==> s.tables == map[])
    && (s.pgd != 0 ==> Pgd in s.tables && s.tables[Pgd] == s.pgd)
    && Enumerates(s.kernel, s.tables)
    && (forall i, j | 0 <= i < j < |s.user| :: s.user[i].physical_adr != s.user[j].physical_adr)
    && UserFrames(s.user) !! s.tables.Values
    && Owned(s) <= used
  }

  /** Holds also between the steps of `map_page`. */
  ghost predicate TreeOk(s: Space, memory: Memory, used: set<int>) {
    && Separate(s, used)
    && (forall k | 0 <= k < |s.user| :: PageAddress(s.user[k].physical_adr) && s.user[k].physical_adr in memory)
    && Represents(memory, s.tables, Replay(s.user))
  }

  /** A tree with no more tables than its pages need. */
  ghost predicate SpaceOk(s: Space, memory: Memory, used: set<int>) {
    TreeOk(s, memory, used) && s.tables.Keys == TablesNeeded(s.user)
  }

  /** The frame that an address of the space translates to. */
  function Translate(memory: Memory, s: Space, v: Vpn): Option<int> {
    if s.pgd == 0 then None else Walk(memory, s.pgd, v)
  }

  /** The frame that the processor finds for a 64-bit address in the space, for an access from EL0. */
  function TranslateAt(memory: Memory, s: Space, va: Word): Option<int> {
    if s.pgd == 0 then None else HardwareWalk(memory, s.pgd, va)
  }

  lemma TranslatesAt(memory: Memory, s: Space, va: Word)
    ensures TranslateAt(memory, s, va) == Translate(memory, s, VpnOf(va))
  {
    HardwareWalks(memory, s.pgd, va);
  }

  lemma TranslateIsReplay(memory: Memory, s: Space, used: set<int>, v: Vpn)
    requires SpaceOk(s, memory, used)
    ensures Translate(memory, s, v) == if v in Replay(s.user) then Some(Replay(s.user)[v]) else None
  {
    if s.pgd == 0 {
      TableBound(s.user);
      assert s.user == [];
    } else {
      WalkIsFlatMap(memory, s.tables, Replay(s.user), v);
    }
  }

  /** Both arrays are large enough for any four mapped pages; the directory and the tables of the pages
      come to at most thirteen. */
  lemma KernelPagesBound(s: Space, memory: Memory, used: set<int>)
    requires SpaceOk(s, memory, used)
    ensures |s.kernel| <= 1 + 3 * |s.user|
    ensures |s.user| <= 4 ==> |s.kernel| < MAX_PROCESS_PAGES
  {
    TableBound(s.user);
  }

  /** Memory keeps its contents at the given pages. */
  ghost predicate Keeps(before: Memory, after: Memory, pages: set<int>) {
    forall a | a in pages && a in before :: a in after && after[a] == before[a]
  }

  /** A space whose frames keep their contents stays what it was. */
  lemma SpaceFrame(s: Space, memory: Memory, memory': Memory, used: set<int>, used': set<int>)
    requires SpaceOk(s, memory, used) && Keeps(memory, memory', Owned(s)) && used <= used'
    ensures SpaceOk(s, memory', used')
    ensures forall v :: Translate(memory', s, v) == Translate(memory, s, v)
  {
    forall t | t in s.tables
      ensures s.tables[t] in memory' && memory'[s.tables[t]] == memory[s.tables[t]]
    {
      assert s.tables[t] in Owned(s);
    }
    OtherPages(memory, memory', s.tables, Replay(s.user));
    forall k | 0 <= k < |s.user|
      ensures s.user[k].physical_adr in memory'
    {
      assert s.user[k].physical_adr in Owned(s);
    }
    forall v
      ensures Translate(memory', s, v) == Translate(memory, s, v)
    {
      TranslateIsReplay(memory, s, used, v);
      TranslateIsReplay(memory', s, used', v);
    }
  }

  /** Some tree fits the fields of the `mm_t`. */
  ghost predicate Sound(s: Space, memory: Memory, used: set<int>) {
    exists tables: map<TableId, int> :: SpaceOk(s.(tables := tables), memory, used)
  }

  /** A table at address 0 is recorded. */
  predicate NullListed(s: Space) {
    0 in s.kernel
  }

  /** Then no tree fits, whatever memory holds. */
  lemma NullNotSound(s: Space, memory: Memory, used: set<int>)
    requires NullListed(s)
    ensures !Sound(s, memory, used)
  {
    forall tables: map<TableId, int>
      ensures !SpaceOk(s.(tables := tables), memory, used)
    {
      NullNotOk(s.(tables := tables), memory, used);
    }
  }

  lemma NullNotOk(s: Space, memory: Memory, used: set<int>)
    requires NullListed(s)
    ensures !SpaceOk(s, memory, used)
  {
    assert 0 in multiset(s.kernel);
    if 0 in multiset(s.tables.Values) {
      assert 0 in s.tables.Values;
      var t :| t in s.tables && s.tables[t] == 0;
      assert !PageAddress(s.tables[t]);
    }
  }

  lemma SeparateAddTable(s: Space, used: set<int>, t: TableId, page: int)
    requires Separate(s, used) && s.pgd != 0 && t !in s.tables && page !in used
    ensures var separate := Separate(s.(tables := s.tables[t := page], kernel := s.kernel + [page]), used + {page});
      separate
  {
    NotOwned(s, used, page);
    EnumerateOneMore(s.kernel, s.tables, t, page);
    SeparateFrom(s, used, t, page, s.tables[t := page], s.kernel + [page]);
  }

  lemma NotOwned(s: Space, used: set<int>, page: int)
    requires Owned(s) <= used && page !in used
    ensures page !in s.tables.Values && page !in UserFrames(s.user)
  {
  }

  lemma SeparateFrom(s: Space, used: set<int>, t: TableId, page: int, tables: map<TableId, int>, kernel: seq<int>)
    requires Separate(s, used) && s.pgd != 0 && t !in s.tables && page !in UserFrames(s.user)
    requires tables == s.tables[t := page] && Enumerates(kernel, tables)
    ensures var separate := Separate(s.(tables := tables, kernel := kernel), used + {page}); separate
  {
    ValuesGrow(s.tables, t, page);
    assert t in tables;
  }

  lemma SeparateAddPage(s: Space, used: set<int>, p: UserPage)
    requires Separate(s, used) && p.physical_adr in used && p.physical_adr !in Owned(s)
    ensures Separate(s.(user := s.user + [p]), used)
  {
    UserFramesGrow(s.user, p);
    NewFrameDistinct(s.user, p);
  }

  /** Linking a fresh zeroed table, and recording it, keeps the tree. */
  lemma AddTable(s: Space, memory: Memory, memory': Memory, used: set<int>, t: TableId, n: Index, page: int)
    requires TreeOk(s, memory, used) && t in s.tables && !t.Pte? && Child(t, n) !in s.tables
    requires PageAddress(page) && page !in used
    requires memory' == memory[page := ZeroWords()][s.tables[t] := memory[s.tables[t]][n := TableEntry(page)]]
    ensures TreeOk(s.(tables := s.tables[Child(t, n) := page], kernel := s.kernel + [page]), memory', used + {page})
  {
    var c := Child(t, n);
    assert s.pgd != 0;
    SeparateAddTable(s, used, c, page);
    TablesUnshared(s);
    LinkTable(memory, memory', s.tables, Replay(s.user), t, n, page);
  }

  lemma KeysGrow<K, V>(m: map<K, V>, k: K, v: V)
    requires k !in m
    ensures m[k := v].Keys == m.Keys + {k} && |m[k := v].Keys| == |m.Keys| + 1
  {
    assert m[k := v].Keys == m.Keys + {k};
  }
  lemma ValuesGrow<K, V>(m: map<K, V>, k: K, v: V)
    requires k !in m
    ensures m[k := v].Values == m.Values + {v}
  {
    var m' := m[k := v];
    forall x | x in m.Values + {v}
      ensures x in m'.Values
    {
      if x != v {
        var y :| y in m && m[y] == x;
        assert m'[y] == x;
      } else {
        assert m'[k] == v;
      }
    }
  }

  lemma ListOneMore(kernel: seq<int>, vals: set<int>, page: int)
    requires multiset(kernel) == multiset(vals) && page !in vals
    ensures multiset(kernel + [page]) == multiset(vals + {page})
  {
  }

  lemma {:induction false} FewerValues<K, V>(m: map<K, V>)
    ensures |m.Values| <= |m.Keys|
    decreases |m.Keys|
  {
    if k :| k in m {
      var m' := m - {k};
      FewerValues(m');
      assert m' [k := m[k]] == m;
      assert m.Keys == m'.Keys + {k};
      if m[k] in m'.Values {
        assert m.Values == m'.Values by { SameValues(m, k); }
      } else {
        ValuesGrow(m', k, m[k]);
      }
    } else {
      assert m.Values == {};
    }
  }

  /** Dropping a key whose value another key has drops no value. */
  lemma SameValues<K, V>(m: map<K, V>, k: K)
    requires k in m && m[k] in (m - {k}).Values
    ensures (m - {k}).Values == m.Values
  {
    var m' := m - {k};
    forall x | x in m.Values
      ensures x in m'.Values
    {
      var y :| y in m && m[y] == x;
      assert y != k ==> y in m' && m'[y] == x;
    }
    forall x | x in m'.Values
      ensures x in m.Values
    {
      var y :| y in m' && m'[y] == x;
      assert m[y] == x;
    }
  }

  /** A list without repeats that enumerates the tables shows that no two of them share a frame. */
  lemma Injective<K, V>(m: map<K, V>)
    requires |m.Values| == |m.Keys|
    ensures forall t, u | t in m && u in m && t != u :: m[t] != m[u]
  {
    forall t, u | t in m && u in m && t != u
      ensures m[t] != m[u]
    {
      if m[t] == m[u] {
        var m' := m - {u};
        assert t in m' && m'[t] == m[u];
        assert m'.Keys == m.Keys - {u};
        SameValues(m, u);
        FewerValues(m');
        assert false;
      }
    }
  }

  lemma TablesUnshared(s: Space)
    requires Enumerates(s.kernel, s.tables)
    ensures Unshared(s.tables)
  {
    assert |s.kernel| == |multiset(s.kernel)| == |multiset(s.tables.Values)| == |s.tables.Values|;
    Injective(s.tables);
  }

  lemma EnumerateOneMore<T>(kernel: seq<int>, tables: map<T, int>, t: T, page: int)
    requires Enumerates(kernel, tables) && t !in tables && page !in tables.Values
    ensures Enumerates(kernel + [page], tables[t := page])
  {
    var tables' := tables[t := page];
    assert |kernel + [page]| == |tables'.Keys| by {
      KeysGrow(tables, t, page);
    }
    assert multiset(kernel + [page]) == multiset(tables'.Values) by {
      ListOneMore(kernel, tables.Values, page);
      ValuesGrow(tables, t, page);
    }
  }

  /** The first table. */
  lemma AddDirectory(s: Space, memory: Memory, used: set<int>, page: int)
    requires SpaceOk(s, memory, used) && s.pgd == 0
    requires PageAddress(page) && page !in used
    ensures s.user == [] && s.kernel == [] && s.tables == map[]
    ensures var tree := TreeOk(Space(page, [], [page], map[Pgd := page]), memory[page := ZeroWords()], used + {page});
      tree
  {
    Treeless(s, memory, used);
    NewDirectory(memory, page);
    OneTable(page, used);
  }

  /** A space without a directory has nothing. */
  lemma Treeless(s: Space, memory: Memory, used: set<int>)
    requires SpaceOk(s, memory, used) && s.pgd == 0
    ensures s.tables == map[] && s.user == [] && s.kernel == []
  {
    TableBound(s.user);
  }

  lemma OneTable(page: int, used: set<int>)
    requires page != 0
    ensures Separate(Space(page, [], [page], map[Pgd := page]), used + {page})
  {
    var tables := map[Pgd := page];
    assert tables.Keys == {Pgd};
    assert tables.Values == {page};
  }

  /** Writing the last-level entry, and recording the page, updates the space at that page only. */
  lemma AddPage(s: Space, memory: Memory, memory': Memory, used: set<int>, va: Word, page: int)
    requires TreeOk(s, memory, used) && PteOf(VpnOf(va)) in s.tables
    requires PageAddress(page) && page in used && page !in Owned(s) && page in memory
    requires var pte := s.tables[PteOf(VpnOf(va))];
             memory' == memory[pte := memory[pte][VpnOf(va).pte := PageEntry(page)]]
    ensures TreeOk(s.(user := s.user + [UserPage(page, va)]), memory', used)
  {
    var p := UserPage(page, va);
    var v := VpnOf(va);
    SeparateAddPage(s, used, p);
    assert Replay(s.user + [p]) == Replay(s.user)[v := page] by {
      Extend(s.user, p);
    }
    assert Represents(memory', s.tables, Replay(s.user)[v := page]) by {
      TablesUnshared(s);
      LinkPage(memory, memory', s.tables, Replay(s.user), v, page);
    }
  }

  lemma NewFrameDistinct(user: seq<UserPage>, p: UserPage)
    requires forall i, j | 0 <= i < j < |user| :: user[i].physical_adr != user[j].physical_adr
    requires p.physical_adr !in UserFrames(user)
    ensures var user' := user + [p];
            forall i, j | 0 <= i < j < |user'| :: user'[i].physical_adr != user'[j].physical_adr
  {
    forall k | 0 <= k < |user|
      ensures user[k].physical_adr != p.physical_adr
    {
      assert user[k].physical_adr in UserFrames(user);
    }
  }

  lemma UserFramesGrow(user: seq<UserPage>, p: UserPage)
    ensures UserFrames(user + [p]) == UserFrames(user) + {p.physical_adr}
  {
    forall x | x in UserFrames(user) + {p.physical_adr}
      ensures x in UserFrames(user + [p])
    {
      if x in UserFrames(user) {
        var k :| 0 <= k < |user| && user[k].physical_adr == x;
        assert (user + [p])[k].physical_adr == x;
      } else {
        assert (user + [p])[|user|] == p;
      }
    }
    forall x | x in UserFrames(user + [p])
      ensures x in UserFrames(user) + {p.physical_adr}
    {
      var k :| 0 <= k < |user + [p]| && (user + [p])[k].physical_adr == x;
      assert k < |user| ==> user[k].physical_adr == x;
    }
  }
}
