/** Path resolution as the reader does it: ids listed in the data of a record, looked up by the names stored in
    their records.  Every address is read in the bytes of the image, whether a record was written there or not. */
module RamDiskPaths {
  import opened LittleEndian
  import opened Wrappers
  import opened RamDiskTrees
  import opened RamDiskImage
  import opened RamDiskRecords

  // ---------- Components ----------

  function FirstSlash(s: seq<Byte>): (i: nat)
    ensures i <= |s| && (i < |s| ==> s[i] == SLASH) && forall k | 0 <= k < i :: s[k] != SLASH
  {
    if s == [] || s[0] == SLASH then 0 else 1 + FirstSlash(s[1..])
  }

  /** The components of a path without its first character; one trailing slash adds none. */
  function Split(s: seq<Byte>): seq<Name>
    decreases |s|
  {
    if s == [] then []
    else
      var i := FirstSlash(s);
      [s[..i]] + if i < |s| then Split(s[i + 1..]) else []
  }

  function Join(names: seq<Name>): seq<Byte> {
    if names == [] then [] else if |names| == 1 then names[0] else names[0] + [SLASH] + Join(names[1..])
  }

  lemma {:induction false} SplitJoin(names: seq<Name>)
    requires forall i | 0 <= i < |names| :: names[i] != [] && SLASH !in names[i]
    ensures Split(Join(names)) == names
  {
    if names != [] {
      if |names| == 1 {
        SplitLast(names[0]);
      } else {
        SplitJoin(names[1..]);
        SplitFirst(names[0], Join(names[1..]), Join(names));
      }
      assert names == [names[0]] + names[1..];
    }
  }

  /** The components have no slash, and joined they are the path, but for one trailing slash. */
  ghost predicate JoinsBack(s: seq<Byte>, names: seq<Name>) {
    && (forall i | 0 <= i < |names| :: SLASH !in names[i])
    && Join(names) == WithoutLast(s) && (s == [] <==> names == [])
  }

  /** Whatever the path, joining its components gives it back. */
  lemma {:induction false} JoinSplit(s: seq<Byte>)
    ensures var back := JoinsBack(s, Split(s)); back
    decreases |s|
  {
    if s == [] {
      SplitNothing();
    } else {
      var i := FirstSlash(s);
      if i < |s| {
        JoinSplit(s[i + 1..]);
        SplitFrom(s, i, s[..i], s[i + 1..]);
        JoinOneMore(s[..i], s[i + 1..], s, Split(s[i + 1..]), Split(s));
      } else {
        SplitWhole(s);
      }
    }
  }

  lemma SplitNothing()
    ensures var back := JoinsBack([], Split([])); back
  {
  }

  lemma SplitWhole(s: seq<Byte>)
    requires s != [] && FirstSlash(s) == |s|
    ensures Split(s) == [s] && var back := JoinsBack(s, Split(s)); back
  {
    UpToSlash(s, |s|, s);
    assert Split(s) == [s[..|s|]];
    assert Join([s]) == s;
  }

  /** What is before the first slash. */
  lemma UpToSlash(s: seq<Byte>, i: nat, name: Name)
    requires i == FirstSlash(s) && |name| == i && forall k | 0 <= k < i :: name[k] == s[k]
    ensures SLASH !in name && s[..i] == name
  {
  }

  lemma JoinOneMore(name: Name, rest: seq<Byte>, s: seq<Byte>, more: seq<Name>, names: seq<Name>)
    requires s == name + [SLASH] + rest && names == [name] + more && SLASH !in name && JoinsBack(rest, more)
    ensures var back := JoinsBack(s, names); back
  {
    JoinFirst(name, more, names);
    LastOf(name, rest, s);
  }

  /** A path without its trailing slash, if it has one. */
  function WithoutLast(s: seq<Byte>): seq<Byte> {
    if s != [] && s[|s| - 1] == SLASH then s[..|s| - 1] else s
  }

  lemma SplitFrom(s: seq<Byte>, i: nat, name: Name, rest: seq<Byte>)
    requires s != [] && i == FirstSlash(s) < |s| && name == s[..i] && rest == s[i + 1..]
    ensures Split(s) == [name] + Split(rest) && SLASH !in name && s == name + [SLASH] + rest
  {
    UpToSlash(s, i, name);
    Reassembled(s, i, name, rest);
  }

  lemma Reassembled(s: seq<Byte>, i: nat, name: Name, rest: seq<Byte>)
    requires i < |s| && s[i] == SLASH && name == s[..i] && rest == s[i + 1..]
    ensures s == name + [SLASH] + rest
  {
  }

  lemma LastOf(name: Name, rest: seq<Byte>, s: seq<Byte>)
    requires s == name + [SLASH] + rest
    ensures WithoutLast(s) == if rest == [] then name else name + [SLASH] + WithoutLast(rest)
  {
    if rest != [] && rest[|rest| - 1] == SLASH {
      assert s[..|s| - 1] == name + [SLASH] + rest[..|rest| - 1];
    }
  }

  lemma JoinFirst(name: Name, rest: seq<Name>, names: seq<Name>)
    requires names == [name] + rest
    ensures Join(names) == if rest == [] then name else name + [SLASH] + Join(rest)
  {
    assert names[1..] == rest;
  }

  lemma SplitLast(name: Name)
    requires name != [] && SLASH !in name
    ensures Split(name) == [name]
  {
    NoSlash(name, []);
    assert name + [] == name && name[..|name|] == name;
  }

  lemma SplitFirst(name: Name, rest: seq<Byte>, s: seq<Byte>)
    requires name != [] && SLASH !in name && s == name + [SLASH] + rest
    ensures Split(s) == [name] + Split(rest)
  {
    NoSlash(name, [SLASH] + rest);
    assert s == name + ([SLASH] + rest);
    assert s[..|name|] == name && s[|name| + 1..] == rest;
  }

  lemma {:induction false} NoSlash(name: Name, rest: seq<Byte>)
    requires SLASH !in name && (rest == [] || rest[0] == SLASH)
    ensures FirstSlash(name + rest) == |name|
  {
    if name != [] {
      assert (name + rest)[1..] == name[1..] + rest;
      NoSlash(name[1..], rest);
    } else {
      assert name + rest == rest;
    }
  }

  // ---------- Reading the image by address ----------

  const ADDRESSES := 0x1_0000_0000_0000_0000
  const TYPE_FIELD := 8
  const NAME_FIELD := 9
  const OFFSET_FIELD := 80
  const SIZE_FIELD := 88

  /** Where a field of `first_file[id]` is, from the start of the image.  There need be no such record: the address is
      computed in 64 bits, whatever the id. */
  function FieldAt(id: nat, field: nat): (at: nat)
    ensures at < ADDRESSES
  {
    (HEADER_SIZE + FILE_DIRECTORY_SIZE * id + field) % ADDRESSES
  }

  /** What `strcmp` comes to; it runs out when it reads behind the image. */
  datatype Comparison = Same | Differs | RunsOut

  function Compare(s: seq<Byte>, name: Name): Comparison {
    if s == [] then RunsOut
    else if name == [] then if s[0] == 0 then Same else Differs
    else if s[0] == 0 || s[0] != name[0] then Differs
    else Compare(s[1..], name[1..])
  }

  /** The name in record `id` against a component. */
  function CompareAt(image: seq<Byte>, id: nat, name: Name): Comparison {
    var at := FieldAt(id, NAME_FIELD);
    Compare(if at <= |image| then image[at..] else [], name)
  }

  /** The words from an address on, if they lie in the image. */
  function WordsAt(image: seq<Byte>, location: nat, n: nat): (ws: Option<seq<nat>>)
    ensures ws.Some? ==> |ws.value| == n
    decreases n
  {
    if n == 0 then Some([])
    else
      var at, rest := location % ADDRESSES, WordsAt(image, location + 8, n - 1);
      if at + 8 <= |image| && rest.Some? then Some([Read64(image, at)] + rest.value) else None
  }

  /** What `rdfs_get_file_list_from_dir_id` gets for an id, whatever has been written where its record would be; `None`
      if it reads behind the image. */
  function Listed(image: seq<Byte>, id: nat): Option<seq<nat>>
    requires |image| >= HEADER_SIZE
  {
    var offset_at, size_at := FieldAt(id, OFFSET_FIELD), FieldAt(id, SIZE_FIELD);
    if offset_at + 8 > |image| || size_at + 8 > |image| then None
    else WordsAt(image, Read64(image, 80) + Read64(image, offset_at) + HEADER_SIZE, Read64(image, size_at) / 8)
  }

  /** The first listed id whose record is not of another name, or the length of the list. */
  function Scan(image: seq<Byte>, ids: seq<nat>, name: Name): (j: nat)
    ensures j <= |ids| && (j < |ids| ==> CompareAt(image, ids[j], name) != Differs)
    ensures forall i | 0 <= i < j :: CompareAt(image, ids[i], name) == Differs
  {
    if ids == [] || CompareAt(image, ids[0], name) != Differs then 0 else 1 + Scan(image, ids[1..], name)
  }

  /** What resolving a path comes to: an id, a failure, or a read behind the image. */
  datatype Outcome = Found(id: nat) | Missing | Outside

  /** The loop of `rdfs_file_get_id_from_path` on the names that are left. */
  function Walk(image: seq<Byte>, id: nat, names: seq<Name>): Outcome
    requires |image| >= HEADER_SIZE
    decreases |names|
  {
    if names == [] then Found(id)
    else
      var ids := Listed(image, id);
      if ids == None then Outside
      else
        var j := Scan(image, ids.value, names[0]);
        if j == |ids.value| then Missing
        else if CompareAt(image, ids.value[j], names[0]) == RunsOut then Outside
        else Walk(image, ids.value[j], names[1..])
  }

  /** What the tree answers. */
  function Answer(t: Tree, k: nat, names: seq<Name>): Outcome
    requires k < |Preorder(t)|
  {
    var r := Resolve(Preorder(t)[k], k, names);
    if r.Some? then Found(r.value) else Missing
  }

  /** `strcmp` tells a NUL-terminated string apart: same exactly if it stands there with its NUL, and out of the image
      exactly if all bytes up to the end agree. */
  lemma {:induction false} CompareIff(s: seq<Byte>, name: Name)
    requires 0 !in name
    ensures Compare(s, name) == Same <==> |name| < |s| && s[..|name|] == name && s[|name|] == 0
    ensures Compare(s, name) == RunsOut <==> |s| <= |name| && s == name[..|s|]
  {
    if s != [] && name != [] {
      assert 0 !in name[1..] && name[0] in name;
      CompareIff(s[1..], name[1..]);
      if |name| < |s| {
        assert s[..|name|] == [s[0]] + s[1..][..|name| - 1] && name == [name[0]] + name[1..];
      } else {
        assert s == [s[0]] + s[1..] && name[..|s|] == [name[0]] + name[1..][..|s| - 1];
      }
    }
  }

  // ---------- The records of nodes ----------

  lemma RecordField(id: nat, field: nat, size: nat)
    requires field < FILE_DIRECTORY_SIZE
    requires HEADER_SIZE + FILE_DIRECTORY_SIZE * id + FILE_DIRECTORY_SIZE <= size <= MAX_WORD
    ensures FieldAt(id, field) == HEADER_SIZE + FILE_DIRECTORY_SIZE * id + field
  {
  }

  /** A field with a NUL in it is compared as the string it holds. */
  lemma {:induction false} CompareField(s: seq<Byte>, n: nat, name: Name)
    requires n <= |s| && |CString(s[..n])| < n
    ensures Compare(s, name) == if CString(s[..n]) == name then Same else Differs
    decreases n
  {
    if s[0] != 0 {
      assert s[..n][1..] == s[1..][..n - 1];
      var rest := CString(s[1..][..n - 1]);
      assert CString(s[..n]) == [s[0]] + rest;
      if name != [] {
        CompareField(s[1..], n - 1, name[1..]);
        assert name == [name[0]] + name[1..];
      }
    }
  }

  /** At a node's id, the names are compared. */
  lemma NodeCompare(image: seq<Byte>, t: Tree, k: nat, name: Name)
    requires (var readable := Readable(image, t); readable) && k < |Preorder(t)|
    ensures CompareAt(image, k, name) == if StoredName(Preorder(t)[k].name) == name then Same else Differs
  {
    NodeName(t, k);
    NodeFields(image, t, k);
    var at := FieldAt(k, NAME_FIELD);
    assert image[at..][..FILE_NAME_SIZE] == image[at..at + FILE_NAME_SIZE];
    CompareField(image[at..], FILE_NAME_SIZE, name);
  }

  lemma NodeFields(image: seq<Byte>, t: Tree, k: nat)
    requires Readable(image, t) && k < |Preorder(t)|
    ensures FieldAt(k, NAME_FIELD) + FILE_NAME_SIZE <= |image|
    ensures CString(image[FieldAt(k, NAME_FIELD)..FieldAt(k, NAME_FIELD) + FILE_NAME_SIZE])
      == StoredName(Preorder(t)[k].name)
  {
    assert RecordIs(image, t, k);
    RecordField(k, NAME_FIELD, |image|);
  }

  /** The fields of record `id` say that its data is `d`. */
  ghost predicate DataIs(image: seq<Byte>, id: nat, d: seq<Byte>) {
    && HEADER_SIZE <= |image| <= MAX_WORD
    && FieldAt(id, OFFSET_FIELD) + 8 <= |image| && FieldAt(id, SIZE_FIELD) + 8 <= |image|
    && ExtentIs(image, Read64(image, 80) + Read64(image, FieldAt(id, OFFSET_FIELD)) + HEADER_SIZE, d)
    && Read64(image, FieldAt(id, SIZE_FIELD)) == |d|
  }

  lemma DataFrom(image: seq<Byte>, id: nat, at: nat, f: nat, offset: nat, d: seq<Byte>)
    requires at == HEADER_SIZE + FILE_DIRECTORY_SIZE * id && at + FILE_DIRECTORY_SIZE <= |image| <= MAX_WORD
    requires Read64(image, 80) == f && Read64(image, at + OFFSET_FIELD) == offset
    requires Read64(image, at + SIZE_FIELD) == |d|
    requires var extent := ExtentIs(image, f + offset + HEADER_SIZE, d); extent
    ensures var data := DataIs(image, id, d); data
  {
    RecordField(id, OFFSET_FIELD, |image|);
    RecordField(id, SIZE_FIELD, |image|);
  }

  lemma NodeData(image: seq<Byte>, t: Tree, k: nat)
    requires Readable(image, t) && k < |Preorder(t)|
    ensures var data := DataIs(image, k, DataOf(Preorder(t)[k], k)); data
  {
    assert RecordIs(image, t, k);
    var f, offset := FILE_DIRECTORY_SIZE * |Preorder(t)|, SizesOf(Preorder(t)[..k]);
    DataFrom(image, k, HEADER_SIZE + FILE_DIRECTORY_SIZE * k, f, offset, DataOf(Preorder(t)[k], k));
  }

  /** The words of an extent in the image. */
  lemma {:induction false} ExtentWords(image: seq<Byte>, location: nat, d: seq<Byte>)
    requires ExtentIs(image, location, d) && |image| <= MAX_WORD
    ensures WordsAt(image, location, |d| / 8) == Some(ReadWords(d))
    decreases |d|
  {
    if |d| >= 8 {
      Within(image, location, d, 0, 8, location, location + 8);
      Within(image, location, d, 8, |d|, location + 8, location + |d|);
      ExtentWords(image, location + 8, d[8..]);
    }
  }

  lemma ListedFrom(image: seq<Byte>, id: nat, d: seq<Byte>)
    requires DataIs(image, id, d)
    ensures Listed(image, id) == Some(ReadWords(d))
  {
    ExtentWords(image, Read64(image, 80) + Read64(image, FieldAt(id, OFFSET_FIELD)) + HEADER_SIZE, d);
  }

  /** At a node's id, the words of its data are listed. */
  lemma NodeListed(image: seq<Byte>, t: Tree, k: nat)
    requires (var readable := Readable(image, t); readable) && k < |Preorder(t)|
    ensures |image| >= HEADER_SIZE && Listed(image, k) == Some(ReadWords(DataOf(Preorder(t)[k], k)))
  {
    ReadableSize(image, t);
    NodeData(image, t, k);
    ListedFrom(image, k, DataOf(Preorder(t)[k], k));
  }

  lemma ReadableSize(image: seq<Byte>, t: Tree)
    requires Readable(image, t)
    ensures HEADER_SIZE <= |image| <= MAX_WORD
  {
  }

  // ---------- Directories list their children ----------

  lemma DirLists(t: Tree, k: nat)
    requires Good(t) && k < |Preorder(t)| && Preorder(t)[k].Dir?
    ensures ReadWords(DataOf(Preorder(t)[k], k)) == Ids(Preorder(t)[k].children, k + 1)
    ensures forall j | 0 <= j < |Preorder(t)[k].children| ::
      var id := Ids(Preorder(t)[k].children, k + 1)[j];
      id < |Preorder(t)| && Preorder(t)[id] == Preorder(t)[k].children[j]
  {
    var ids := Ids(Preorder(t)[k].children, k + 1);
    forall j | 0 <= j < |ids|
      ensures ids[j] < |Preorder(t)| && Preorder(t)[ids[j]] == Preorder(t)[k].children[j]
    {
      ChildAt(t, k, j);
    }
    ReadWordsBack(ids);
  }

  /** An id at which the name of a node is stored. */
  ghost predicate Holds(image: seq<Byte>, id: nat, u: Tree, name: Name) {
    CompareAt(image, id, name) == if u.name == name then Same else Differs
  }

  /** In a directory, the reader finds the child that the tree has under the name. */
  lemma {:induction false} FindsChild(image: seq<Byte>, ids: seq<nat>, ts: seq<Tree>, name: Name)
    requires |ids| == |ts| && forall j | 0 <= j < |ids| :: Holds(image, ids[j], ts[j], name)
    ensures Scan(image, ids, name) == ChildNamed(ts, name)
    decreases |ids|
  {
    if ids != [] {
      assert Holds(image, ids[0], ts[0], name);
      forall j | 0 <= j < |ids[1..]|
        ensures Holds(image, ids[1..][j], ts[1..][j], name)
      {
        assert Holds(image, ids[j + 1], ts[j + 1], name);
      }
      FindsChild(image, ids[1..], ts[1..], name);
    }
  }

  /** In a directory the step of the walk is the step of the tree. */
  lemma DirStep(image: seq<Byte>, t: Tree, k: nat, name: Name)
    requires (var readable := Readable(image, t); readable) && k < |Preorder(t)| && Preorder(t)[k].Dir?
    ensures |image| >= HEADER_SIZE && Listed(image, k) == Some(Ids(Preorder(t)[k].children, k + 1))
    ensures var ids, ts := Ids(Preorder(t)[k].children, k + 1), Preorder(t)[k].children;
      && Scan(image, ids, name) == ChildNamed(ts, name)
      && forall j | 0 <= j < |ids| && ts[j].name == name :: CompareAt(image, ids[j], name) == Same
  {
    NodeListed(image, t, k);
    ReadableGood(image, t);
    DirLists(t, k);
    var ids, ts := Ids(Preorder(t)[k].children, k + 1), Preorder(t)[k].children;
    forall j | 0 <= j < |ids|
      ensures Holds(image, ids[j], ts[j], name)
    {
      ChildAt(t, k, j);
      NodeName(t, ids[j]);
      NodeCompare(image, t, ids[j], name);
    }
    FindsChild(image, ids, ts, name);
    forall j | 0 <= j < |ids| && ts[j].name == name
      ensures CompareAt(image, ids[j], name) == Same
    {
      assert Holds(image, ids[j], ts[j], name);
    }
  }

  lemma ReadableGood(image: seq<Byte>, t: Tree)
    requires Readable(image, t)
    ensures Good(t)
  {
  }

  lemma WalkStep(image: seq<Byte>, id: nat, names: seq<Name>, ids: seq<nat>, j: nat)
    requires |image| >= HEADER_SIZE && names != [] && Listed(image, id) == Some(ids) && j == Scan(image, ids, names[0])
    ensures Walk(image, id, names) ==
      if j == |ids| then Missing
      else if CompareAt(image, ids[j], names[0]) == RunsOut then Outside
      else Walk(image, ids[j], names[1..])
  {
  }

  // ---------- When the walk is right ----------

  /** Some component follows one that leads to a file, which `rdfs_file_get_id_from_path` does not check. */
  predicate FileInTheWay(t: Tree, k: nat, names: seq<Name>)
    requires k < |Preorder(t)|
    decreases |names|
  {
    var u := Preorder(t)[k];
    names != [] &&
    (u.File? ||
     var j := ChildNamed(u.children, names[0]);
     j < |u.children| && var i := Ids(u.children, k + 1)[j]; i < |Preorder(t)| && FileInTheWay(t, i, names[1..]))
  }

  /** With no file in the way, the walk stays in the records of nodes and finds what the names lead to in the tree. */
  lemma {:induction false} WalkIsResolve(image: seq<Byte>, t: Tree, k: nat, names: seq<Name>)
    requires (var readable := Readable(image, t); readable) && k < |Preorder(t)| && !FileInTheWay(t, k, names)
    ensures |image| >= HEADER_SIZE && Walk(image, k, names) == Answer(t, k, names)
    decreases |names|
  {
    ReadableSize(image, t);
    if names != [] {
      var ts := Preorder(t)[k].children;
      var ids, j := Ids(ts, k + 1), ChildNamed(ts, names[0]);
      DirStep(image, t, k, names[0]);
      WalkStep(image, k, names, ids, j);
      ResolveStep(ts, k + 1, names);
      if j < |ts| {
        ChildAt(t, k, j);
        WalkIsResolve(image, t, ids[j], names[1..]);
      }
    }
  }

  lemma {:induction false} ResolvedNoFile(t: Tree, k: nat, names: seq<Name>)
    requires k < |Preorder(t)| && Resolve(Preorder(t)[k], k, names).Some?
    ensures !FileInTheWay(t, k, names)
    decreases |names|
  {
    if names != [] {
      var u := Preorder(t)[k];
      ResolveStep(u.children, k + 1, names);
      var j := ChildNamed(u.children, names[0]);
      ChildAt(t, k, j);
      ResolvedNoFile(t, Ids(u.children, k + 1)[j], names[1..]);
    }
  }

  /** The path of node `k`, and its terminating NUL. */
  function PathTo(t: Tree, k: nat): (path: seq<Byte>)
    requires k < |Preorder(t)|
    ensures |path| >= 2
  {
    [SLASH] + Join(NamesTo(t, k)) + [0]
  }

  /** The components of a C path; the first character is skipped unread. */
  function ComponentsOf(path: seq<Byte>): seq<Name>
    requires |path| >= 2
  {
    Split(path[1..|path| - 1])
  }

  lemma {:induction false} NamesToOk(t: Tree, k: nat)
    requires WellNamed(t) && k < |Preorder(t)|
    ensures forall i | 0 <= i < |NamesTo(t, k)| :: NameOk(NamesTo(t, k)[i])
    decreases t
  {
    if k > 0 {
      NamesToAmongOk(t.children, k - 1);
    }
  }

  lemma {:induction false} NamesToAmongOk(ts: seq<Tree>, k: nat)
    requires AllWellNamed(ts) && k < |PreorderAll(ts)|
    ensures forall i | 0 <= i < |NamesToAmong(ts, k)| :: NameOk(NamesToAmong(ts, k)[i])
    decreases ts
  {
    if k < |Preorder(ts[0])| {
      NamesToOk(ts[0], k);
    } else {
      NamesToAmongOk(ts[1..], k - |Preorder(ts[0])|);
    }
  }

  lemma FromRoot(image: seq<Byte>, t: Tree, names: seq<Name>)
    requires (var readable := Readable(image, t); readable) && !FileInTheWay(t, 0, names)
    ensures |image| >= HEADER_SIZE
    ensures var r := Resolve(t, 0, names); Walk(image, 0, names) == if r.Some? then Found(r.value) else Missing
  {
    WalkIsResolve(image, t, 0, names);
    assert Preorder(t)[0] == t;
  }

  lemma RootFails(t: Tree, names: seq<Name>)
    ensures Resolve(t, 0, names) == None <==> Misses(t, 0, names)
  {
    assert Preorder(t)[0] == t;
    ResolveFails(t, 0, names);
  }

  lemma RootIff(t: Tree, names: seq<Name>, k: nat)
    requires WellNamed(t)
    ensures Resolve(t, 0, names) == Some(k) <==> k < |Preorder(t)| && names == NamesTo(t, k)
  {
    ResolveIff(t, 0, names, k);
  }

  lemma NamesToFound(t: Tree, k: nat)
    requires Good(t) && k < |Preorder(t)|
    ensures Resolve(t, 0, NamesTo(t, k)) == Some(k) && !FileInTheWay(t, 0, NamesTo(t, k))
  {
    ResolveIff(t, 0, NamesTo(t, k), k);
    assert Preorder(t)[0] == t;
    ResolvedNoFile(t, 0, NamesTo(t, k));
  }

  lemma PathSplits(t: Tree, k: nat)
    requires Good(t) && k < |Preorder(t)|
    ensures ComponentsOf(PathTo(t, k)) == NamesTo(t, k)
  {
    NamesToOk(t, k);
    SplitJoin(NamesTo(t, k));
    assert PathTo(t, k)[1..|PathTo(t, k)| - 1] == Join(NamesTo(t, k));
  }

  /** Every node has a path, and resolving it in the image gives the node's id. */
  lemma PathFound(image: seq<Byte>, t: Tree, k: nat)
    requires (var readable := Readable(image, t); readable) && k < |Preorder(t)|
    ensures |image| >= HEADER_SIZE && Walk(image, 0, ComponentsOf(PathTo(t, k))) == Found(k)
  {
    ReadableGood(image, t);
    PathSplits(t, k);
    NamesToFound(t, k);
    FromRoot(image, t, NamesTo(t, k));
  }

  /** With no file in the way: id `k` exactly for the names on the way to node `k`, and failure exactly where a
      component names no child. */
  lemma WalkIff(image: seq<Byte>, t: Tree, names: seq<Name>, k: nat)
    requires (var readable := Readable(image, t); readable) && !FileInTheWay(t, 0, names)
    ensures |image| >= HEADER_SIZE
    ensures Walk(image, 0, names) == Found(k) <==> k < |Preorder(t)| && names == NamesTo(t, k)
    ensures Walk(image, 0, names) == Missing <==> Misses(t, 0, names)
  {
    ReadableGood(image, t);
    FromRoot(image, t, names);
    RootIff(t, names, k);
    RootFails(t, names);
  }
}
