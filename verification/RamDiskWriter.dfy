/** The image generator, tools/fs/genRamDisk.py. */
module RamDiskWriter {
  import opened Collections
  import opened LittleEndian
  import opened RamDiskTrees
  import opened RamDiskImage

  /** A `directory` or a `file`: only its id changes after the directory scan. */
  class FsNode {
    const name: Name
    const isDir: bool
    const content: seq<Byte>
    const children: seq<FsNode>
    var id: nat

    /** The tree below, as a value. */
    ghost const tree: Tree

    constructor File(name: Name, content: seq<Byte>)
      ensures Shaped(this) && tree == Tree.File(name, content) && id == 0
    {
      this.name, this.isDir, this.content, this.children, this.id := name, false, content, [], 0;
      this.tree := Tree.File(name, content);
    }

    constructor Directory(name: Name, children: seq<FsNode>, ghost trees: seq<Tree>)
      requires AllShaped(children, trees)
      ensures Shaped(this) && tree == Tree.Dir(name, trees) && this.children == children && id == 0
    {
      this.name, this.isDir, this.content, this.children, this.id := name, true, [], children, 0;
      this.tree := Tree.Dir(name, trees);
    }
  }

  ghost predicate Shaped(n: FsNode)
    decreases n.tree
  {
    && n.name == n.tree.name && n.isDir == n.tree.Dir?
    && if n.tree.Dir? then AllShaped(n.children, n.tree.children) else n.content == n.tree.content && n.children == []
  }

  ghost predicate AllShaped(ns: seq<FsNode>, ts: seq<Tree>)
    decreases ts
  {
    && |ns| == |ts|
    && (ts == [] || (ns[0].tree == ts[0] && Shaped(ns[0]) && AllShaped(ns[1..], ts[1..])))
  }

  /** The objects of a tree in preorder. */
  ghost function Nodes(n: FsNode): (ns: seq<FsNode>)
    requires Shaped(n)
    ensures |ns| == |Preorder(n.tree)| && ns[0] == n
    decreases n.tree
  {
    [n] + if n.tree.Dir? then AllNodes(n.children, n.tree.children) else []
  }

  ghost function AllNodes(ns: seq<FsNode>, ts: seq<Tree>): (all: seq<FsNode>)
    requires AllShaped(ns, ts)
    ensures |all| == |PreorderAll(ts)|
    decreases ts
  {
    if ts == [] then [] else Nodes(ns[0]) + AllNodes(ns[1..], ts[1..])
  }

  /** No object is in two places: the directory scan makes a tree. */
  ghost predicate Distinct(ns: seq<FsNode>) {
    forall i, j | 0 <= i < j < |ns| :: Differ(ns, i, j)
  }

  ghost predicate Differ(ns: seq<FsNode>, i: nat, j: nat)
    requires i < |ns| && j < |ns|
  {
    ns[i] != ns[j]
  }

  lemma {:induction false} NodesMatch(n: FsNode, k: nat)
    requires Shaped(n) && k < |Nodes(n)|
    ensures Nodes(n)[k].tree == Preorder(n.tree)[k] && Shaped(Nodes(n)[k])
    decreases n.tree
  {
    if k > 0 {
      AllNodesMatch(n.children, n.tree.children, k - 1);
    }
  }

  lemma {:induction false} AllNodesMatch(ns: seq<FsNode>, ts: seq<Tree>, k: nat)
    requires AllShaped(ns, ts) && k < |AllNodes(ns, ts)|
    ensures AllNodes(ns, ts)[k].tree == PreorderAll(ts)[k] && Shaped(AllNodes(ns, ts)[k])
    decreases ts
  {
    if k < |Nodes(ns[0])| {
      NodesMatch(ns[0], k);
    } else {
      AllNodesMatch(ns[1..], ts[1..], k - |Nodes(ns[0])|);
    }
  }

  lemma NextNodes(ns: seq<FsNode>, ts: seq<Tree>, i: nat)
    requires |ns| == |ts| && i < |ts| && AllShaped(ns[i..], ts[i..])
    ensures ns[i].tree == ts[i] && Shaped(ns[i]) && AllShaped(ns[i + 1..], ts[i + 1..])
    ensures AllNodes(ns[i..], ts[i..]) == Nodes(ns[i]) + AllNodes(ns[i + 1..], ts[i + 1..])
  {
    assert ns[i..][1..] == ns[i + 1..] && ts[i..][1..] == ts[i + 1..];
  }

  lemma DistinctParts(all: seq<FsNode>, a: seq<FsNode>, b: seq<FsNode>, c: seq<FsNode>)
    requires Distinct(all) && all == a + b + c
    ensures Distinct(b) && (forall k | 0 <= k < |a| :: a[k] !in b) && (forall k | 0 <= k < |b| :: b[k] in all)
  {
    forall i, j | 0 <= i < j < |b|
      ensures Differ(b, i, j)
    {
      assert Differ(all, |a| + i, |a| + j);
    }
    forall k, j | 0 <= k < |a| && 0 <= j < |b|
      ensures a[k] != b[j]
    {
      assert Differ(all, k, |a| + j);
    }
    forall k | 0 <= k < |b|
      ensures b[k] in all
    {
      assert all[|a| + k] == b[k];
    }
  }

  // ---------- Numbering ----------

  /** `flatten_dir`: numbers everything below `dir` from `start_id` on, and lists it. */
  method FlattenDir(dir: FsNode, start_id: nat) returns (child_list: seq<FsNode>, id: nat)
    requires Shaped(dir) && dir.isDir && Distinct(Nodes(dir))
    modifies set n | n in Nodes(dir)[1..] :: n`id
    ensures child_list == Nodes(dir) && id == start_id + |Nodes(dir)| - 1
    ensures forall k | 0 < k < |child_list| :: child_list[k].id == start_id + k - 1
    decreases dir.tree, 0
  {
    child_list, id := [dir], start_id;
    ghost var ts := dir.tree.children;
    assert dir.children[0..] == dir.children && ts[0..] == ts;
    var i := 0;
    while i < |dir.children|
      invariant i <= |dir.children| && AllShaped(dir.children[i..], ts[i..])
      invariant child_list != [] && Nodes(dir) == child_list + AllNodes(dir.children[i..], ts[i..])
      invariant id == start_id + |child_list| - 1
      invariant forall k | 0 < k < |child_list| :: child_list[k].id == start_id + k - 1
    {
      NextNodes(dir.children, ts, i);
      ghost var next, rest := Nodes(dir.children[i]), AllNodes(dir.children[i + 1..], ts[i + 1..]);
      Assoc(child_list, next, rest);
      ChildParts(dir, child_list, next, rest);
      var new_list, new_id := FlattenChild(dir.children[i], id);
      child_list := child_list + new_list;
      id := new_id;
      i := i + 1;
    }
  }

  lemma DistinctHead(ns: seq<FsNode>)
    requires Distinct(ns) && ns != []
    ensures ns[0] !in ns[1..]
  {
    forall j | 0 < j < |ns|
      ensures ns[0] != ns[j]
    {
      assert Differ(ns, 0, j);
    }
  }

  lemma ChildParts(dir: FsNode, done: seq<FsNode>, next: seq<FsNode>, rest: seq<FsNode>)
    requires Shaped(dir) && Distinct(Nodes(dir)) && Nodes(dir) == done + next + rest && done != []
    ensures Distinct(next) && (forall k | 0 <= k < |done| :: done[k] !in next)
    ensures forall n | n in next :: n in Nodes(dir)[1..]
  {
    DistinctParts(Nodes(dir), done, next, rest);
    LaterMembers(Nodes(dir), done, next, rest);
  }

  lemma LaterMembers(all: seq<FsNode>, a: seq<FsNode>, b: seq<FsNode>, c: seq<FsNode>)
    requires all == a + b + c && a != []
    ensures forall n | n in b :: n in all[1..]
  {
    forall k | 0 <= k < |b|
      ensures b[k] in all[1..]
    {
      assert all[1..][|a| - 1 + k] == b[k];
    }
  }

  /** The body of the loop: the child gets the next id, and a directory is flattened in turn. */
  method FlattenChild(child: FsNode, id: nat) returns (new_list: seq<FsNode>, new_id: nat)
    requires Shaped(child) && Distinct(Nodes(child))
    modifies set n | n in Nodes(child) :: n`id
    ensures new_list == Nodes(child) && new_id == id + |new_list|
    ensures forall k | 0 <= k < |new_list| :: new_list[k].id == id + k
    decreases child.tree, 1
  {
    DistinctHead(Nodes(child));
    assert Nodes(child)[0] in Nodes(child) && forall n | n in Nodes(child)[1..] :: n in Nodes(child);
    child.id := id;
    if !child.isDir {
      new_list, new_id := [child], id + 1;
    } else {
      new_list, new_id := FlattenDir(child, id + 1);
    }
  }

  // ---------- Where the children are in the list ----------

  /** The objects of the subtree of `u`, at position `k`, follow it without a gap. */
  ghost predicate NodesAt(all: seq<FsNode>, k: nat, u: FsNode) {
    Shaped(u) && StandsAt(all, k, Nodes(u)) && k < |all| && all[k] == u
  }

  lemma NodesAre(all: seq<FsNode>, k: nat, u: FsNode)
    requires Shaped(u) && StandsAt(all, k, Nodes(u))
    ensures var at := NodesAt(all, k, u); at
  {
    StandingAt(all, k, Nodes(u), 0);
  }

  lemma {:induction false} NodesContiguous(n: FsNode, k: nat) returns (u: FsNode)
    requires Shaped(n) && k < |Nodes(n)|
    ensures var at := NodesAt(Nodes(n), k, u); at
    decreases n.tree
  {
    if k > 0 {
      u := AllNodesContiguous(n.children, n.tree.children, k - 1);
      StandsInTail([n], AllNodes(n.children, n.tree.children), k - 1, Nodes(u));
      NodesAre(Nodes(n), k, u);
    } else {
      u := n;
      assert Nodes(n)[0..|Nodes(n)|] == Nodes(n);
    }
  }

  lemma {:induction false} AllNodesContiguous(ns: seq<FsNode>, ts: seq<Tree>, k: nat) returns (u: FsNode)
    requires AllShaped(ns, ts) && k < |AllNodes(ns, ts)|
    ensures var at := NodesAt(AllNodes(ns, ts), k, u); at
    decreases ts
  {
    var head, tail := Nodes(ns[0]), AllNodes(ns[1..], ts[1..]);
    if k < |head| {
      u := NodesContiguous(ns[0], k);
      StandsInHead(head, tail, k, Nodes(u));
    } else {
      u := AllNodesContiguous(ns[1..], ts[1..], k - |head|);
      StandsInTail(head, tail, k - |head|, Nodes(u));
    }
    NodesAre(AllNodes(ns, ts), k, u);
  }

  ghost predicate NodeAt(all: seq<FsNode>, i: nat, n: FsNode) {
    i < |all| && all[i] == n
  }

  lemma NodeInTail(a: seq<FsNode>, b: seq<FsNode>, s: seq<FsNode>, i: nat, i': nat, n: FsNode)
    requires s == a + b && i == |a| + i' && NodeAt(b, i', n)
    ensures var at := NodeAt(s, i, n); at
  {
  }

  lemma HeadShaped(ns: seq<FsNode>, ts: seq<Tree>)
    requires AllShaped(ns, ts) && ts != []
    ensures |ns| == |ts| && ns[0].tree == ts[0] && Shaped(ns[0]) && |Nodes(ns[0])| == |Preorder(ts[0])|
    ensures var shaped := AllShaped(ns[1..], ts[1..]); shaped
    ensures AllNodes(ns, ts) == Nodes(ns[0]) + AllNodes(ns[1..], ts[1..])
  {
  }

  lemma PrefixSize(ts: seq<Tree>, j: nat)
    requires 0 < j <= |ts|
    ensures |PreorderAll(ts[..j])| == |Preorder(ts[0])| + |PreorderAll(ts[1..][..j - 1])|
  {
    assert ts[..j][1..] == ts[1..][..j - 1];
  }

  /** Sibling `j` stands behind the objects of the siblings before it. */
  lemma {:induction false} AllNodesAt(ns: seq<FsNode>, ts: seq<Tree>, j: nat, i: nat)
    requires (var shaped := AllShaped(ns, ts); shaped) && j < |ts| && i == |PreorderAll(ts[..j])|
    ensures j < |ns| && var at := NodeAt(AllNodes(ns, ts), i, ns[j]); at
    decreases j
  {
    HeadShaped(ns, ts);
    if j > 0 {
      var i' := |PreorderAll(ts[1..][..j - 1])|;
      PrefixSize(ts, j);
      AllNodesAt(ns[1..], ts[1..], j - 1, i');
      NextNodeAt(ns, ts, j, i', i);
    } else {
      FirstNode(ns, ts);
    }
  }

  lemma NextNodeAt(ns: seq<FsNode>, ts: seq<Tree>, j: nat, i': nat, i: nat)
    requires AllShaped(ns, ts) && 0 < j < |ts| && i == |Preorder(ts[0])| + i'
    requires NodeAt(AllNodes(ns[1..], ts[1..]), i', ns[1..][j - 1])
    ensures var at := NodeAt(AllNodes(ns, ts), i, ns[j]); at
  {
    HeadShaped(ns, ts);
    NodeInTail(Nodes(ns[0]), AllNodes(ns[1..], ts[1..]), AllNodes(ns, ts), i, i', ns[j]);
  }

  lemma FirstNode(ns: seq<FsNode>, ts: seq<Tree>)
    requires AllShaped(ns, ts) && ts != []
    ensures PreorderAll(ts[..0]) == [] && var at := NodeAt(AllNodes(ns, ts), 0, ns[0]); at
  {
    assert AllNodes(ns, ts)[0] == Nodes(ns[0])[0] && ts[..0] == [];
  }

  lemma ChildWithinNodes(u: FsNode, k: nat, j: nat) returns (i: nat)
    requires Shaped(u) && j < |Children(u.tree)|
    ensures j < |u.children| && Ids(Children(u.tree), k + 1)[j] == i && k <= i < k + |Nodes(u)|
    ensures Nodes(u)[i - k] == u.children[j]
  {
    var i' := |PreorderAll(u.tree.children[..j])|;
    IdsAt(u.tree.children, k + 1, j);
    AllNodesAt(u.children, u.tree.children, j, i');
    i := k + 1 + i';
    NodeInTail([u], AllNodes(u.children, u.tree.children), Nodes(u), i - k, i', u.children[j]);
  }

  /** Child `j` of the node at position `k` is at the position that the numbering says. */
  lemma ChildNode(root: FsNode, k: nat, j: nat)
    requires Shaped(root) && k < |Nodes(root)| && j < |Children(Nodes(root)[k].tree)|
    ensures var u := Nodes(root)[k]; var i := Ids(Children(u.tree), k + 1)[j];
      j < |u.children| && i < |Nodes(root)| && Nodes(root)[i] == u.children[j]
  {
    var u := NodesContiguous(root, k);
    var i := ChildWithinNodes(u, k, j);
    StandingAt(Nodes(root), k, Nodes(u), i - k);
  }

  // ---------- The bytes ----------

  /** A tuple of `bin_list`. */
  datatype Item = Item(name: Name, size: nat, isDir: bool, id: nat)

  function ItemOf(t: Tree, id: nat): Item {
    Item(t.name, SizeOf(t), t.Dir?, id)
  }

  ghost predicate Items(flist: seq<Item>, ts: seq<Tree>) {
    |flist| == |ts| && forall k | 0 <= k < |flist| :: flist[k] == ItemOf(ts[k], k)
  }

  method GenHeader(f: nat, d: nat) returns (header_list: seq<Byte>)
    requires f <= MAX_WORD && d <= MAX_WORD
    ensures header_list == Header(f, d)
  {
    header_list := [0xF5, 0x7D, 0x00, 0x00];
    header_list := header_list + ToBytes(0, 4);
    header_list := header_list + ToBytes(DUMMY_PART_SIZE, 8);
    var name_list := Padded(PARTITION_NAME, 64);
    header_list := header_list + name_list;
    FrontBytes(name_list);
    header_list := header_list + ToBytes(f, 8) + ToBytes(d, 8);
  }

  lemma FrontBytes(name_list: seq<Byte>)
    requires name_list == PARTITION_NAME + Zeros(64 - |PARTITION_NAME|)
    ensures [0xF5, 0x7D, 0x00, 0x00] + ToBytes(0, 4) + ToBytes(DUMMY_PART_SIZE, 8) + name_list == HeaderFront()
  {
    assert ToBytes(0, 4) == Zeros(4);
  }

  /** The loops that append the characters of a name and then zeros. */
  method Padded(name: Name, size: nat) returns (name_list: seq<Byte>)
    requires |name| <= size
    ensures name_list == name + Zeros(size - |name|)
  {
    name_list := [];
    for i := 0 to |name|
      invariant name_list == name[..i]
    {
      name_list := name_list + [name[i]];
    }
    for i := 0 to size - |name|
      invariant name_list == name + Zeros(i)
    {
      ZerosSnoc(i);
      name_list := name_list + [0];
    }
  }

  lemma {:induction false} ZerosSnoc(n: nat)
    ensures Zeros(n + 1) == Zeros(n) + [0]
  {
    if n > 0 {
      ZerosSnoc(n - 1);
    }
  }

  /** The name's field; the root has the name "/". */
  method NameList(name: Name) returns (name_list: seq<Byte>)
    requires |name| < FILE_NAME_SIZE
    ensures name_list == NameField(name)
  {
    var shown := name;
    if shown == [] {
      shown := [SLASH];
    }
    name_list := Padded(shown, FILE_NAME_SIZE);
  }

  method GenFileEntry(item: Item, curr_offset: nat, ghost t: Tree) returns (entry: seq<Byte>)
    requires |t.name| < FILE_NAME_SIZE && item == ItemOf(t, item.id)
    ensures entry == Record(t, item.id, curr_offset)
  {
    entry := ToBytes(item.id, 8);
    var dir_type: Byte := 0;
    if item.isDir {
      dir_type := DIR_TYPE;
    } else {
      dir_type := FILE_TYPE;
    }
    entry := entry + [dir_type];
    var name_list := NameList(item.name);
    entry := entry + name_list;
    entry := entry + ToBytes(curr_offset, 8);
    entry := entry + ToBytes(item.size, 8);
  }

  lemma {:induction false} ConcatSnoc(rs: seq<seq<Byte>>, r: seq<Byte>)
    ensures Concat(rs + [r]) == Concat(rs) + r
  {
    if rs == [] {
      assert rs + [r] == [r] && [r][1..] == [];
    } else {
      assert (rs + [r])[1..] == rs[1..] + [r];
      ConcatSnoc(rs[1..], r);
    }
  }

  lemma RecordListSnoc(es: seq<Entry>, e: Entry)
    requires EntriesFit(es + [e]) && EntriesFit(es) && |e.node.name| < FILE_NAME_SIZE
    ensures RecordList(es + [e]) == RecordList(es) + [RecordOf(e)]
  {
    var a, b := RecordList(es + [e]), RecordList(es) + [RecordOf(e)];
    assert |a| == |b|;
    forall i | 0 <= i < |a|
      ensures a[i] == b[i]
    {
      assert a[i] == RecordOf((es + [e])[i]);
    }
  }

  lemma RecordsSnoc(es: seq<Entry>, i: nat)
    requires EntriesFit(es) && i < |es|
    ensures Records(es[..i + 1]) == Records(es[..i]) + RecordOf(es[i])
  {
    assert es[..i + 1] == es[..i] + [es[i]];
    RecordListSnoc(es[..i], es[i]);
    ConcatSnoc(RecordList(es[..i]), RecordOf(es[i]));
  }

  lemma EntryStep(ts: seq<Tree>, es: seq<Entry>, i: nat)
    requires EntriesFit(es) && i < |es| && i < |ts| && |ts[i].name| < FILE_NAME_SIZE
    requires es[i] == Entry(ts[i], i, SizesOf(ts[..i]))
    ensures Records(es[..i + 1]) == Records(es[..i]) + Record(ts[i], i, SizesOf(ts[..i]))
  {
    RecordsSnoc(es, i);
  }

  lemma {:induction false} SizesSnoc(ts: seq<Tree>, i: nat)
    requires i < |ts|
    ensures SizesOf(ts[..i + 1]) == SizesOf(ts[..i]) + SizeOf(ts[i])
    decreases i
  {
    SizesSplit(ts, i);
    if i > 0 {
      SizesSplit(ts, i - 1);
      SizesSnoc(ts[1..], i - 1);
    } else {
      assert ts[1..][..0] == [] && ts[..0] == [];
    }
  }

  lemma NextEntry(ts: seq<Tree>, es: seq<Entry>, i: nat, bytes: seq<Byte>, offset: nat)
    requires NamesFit(ts) && es == Entries(ts, 0, 0) && EntriesFit(es) && i < |ts|
    requires bytes == Records(es[..i]) && offset == SizesOf(ts[..i])
    ensures |ts[i].name| < FILE_NAME_SIZE && bytes + Record(ts[i], i, offset) == Records(es[..i + 1])
    ensures offset + SizeOf(ts[i]) == SizesOf(ts[..i + 1])
  {
    EntriesAt(ts, 0, 0, i);
    EntryStep(ts, es, i);
    SizesSnoc(ts, i);
  }

  method GenFileDirectories(flist: seq<Item>, ghost ts: seq<Tree>) returns (file_entry_byte_array: seq<Byte>)
    requires Items(flist, ts) && NamesFit(ts)
    ensures EntriesFit(Entries(ts, 0, 0)) && file_entry_byte_array == Records(Entries(ts, 0, 0))
  {
    file_entry_byte_array := [];
    var curr_offset := 0;
    EntriesOfFit(ts);
    ghost var es := Entries(ts, 0, 0);
    for i := 0 to |flist|
      invariant file_entry_byte_array == Records(es[..i]) && curr_offset == SizesOf(ts[..i])
    {
      NextEntry(ts, es, i, file_entry_byte_array, curr_offset);
      var entry := GenFileEntry(flist[i], curr_offset, ts[i]);
      file_entry_byte_array := file_entry_byte_array + entry;
      curr_offset := curr_offset + flist[i].size;
    }
    assert es[..|es|] == es;
  }

  lemma {:induction false} DataConcat(a: seq<Tree>, b: seq<Tree>, id: nat, id': nat)
    requires id' == id + |a|
    ensures Data(a + b, id) == Data(a, id) + Data(b, id')
    decreases |a|
  {
    if a == [] {
      assert a + b == b;
    } else {
      assert (a + b)[1..] == a[1..] + b;
      DataConcat(a[1..], b, id + 1, id');
    }
  }

  lemma DataSnoc(ts: seq<Tree>, i: nat)
    requires i < |ts|
    ensures Data(ts[..i + 1], 0) == Data(ts[..i], 0) + DataOf(ts[i], i)
  {
    assert ts[..i + 1] == ts[..i] + [ts[i]];
    DataConcat(ts[..i], [ts[i]], 0, i);
    assert [ts[i]][1..] == [];
  }

  lemma {:induction false} WordsSnoc(vs: seq<nat>, v: nat)
    ensures Words(vs + [v]) == Words(vs) + Word(v)
  {
    if vs == [] {
      assert vs + [v] == [v] && [v][1..] == [];
    } else {
      assert (vs + [v])[1..] == vs[1..] + [v];
      WordsSnoc(vs[1..], v);
    }
  }

  /** The ids of a directory's children, one word each. */
  method GenIds(dir: FsNode, ghost ids: seq<nat>) returns (data: seq<Byte>)
    requires |ids| == |dir.children| && forall j | 0 <= j < |ids| :: dir.children[j].id == ids[j]
    ensures data == Words(ids)
  {
    data := [];
    for j := 0 to |dir.children|
      invariant data == Words(ids[..j])
    {
      NextWord(ids, j);
      data := data + ToBytes(dir.children[j].id, 8);
    }
    assert ids[..|ids|] == ids;
  }

  lemma TakeNext<T>(s: seq<T>, j: nat)
    requires j < |s|
    ensures s[..j + 1] == s[..j] + [s[j]]
  {
  }

  lemma NextWord(ids: seq<nat>, j: nat)
    requires j < |ids|
    ensures Words(ids[..j + 1]) == Words(ids[..j]) + Word(ids[j])
  {
    TakeNext(ids, j);
    WordsSnoc(ids[..j], ids[j]);
  }

  ghost predicate Numbered(ns: seq<FsNode>)
    reads ns
  {
    forall k | 0 <= k < |ns| :: ns[k].id == k
  }

  lemma ChildIdsMatch(root: FsNode, i: nat, node: FsNode)
    requires Shaped(root) && Numbered(Nodes(root)) && i < |Nodes(root)| && node == Nodes(root)[i] && Shaped(node)
    requires node.tree.Dir?
    ensures |node.children| == |node.tree.children|
    ensures forall j | 0 <= j < |node.children| :: node.children[j].id == Ids(node.tree.children, i + 1)[j]
  {
    forall j | 0 <= j < |node.children|
      ensures node.children[j].id == Ids(node.tree.children, i + 1)[j]
    {
      ChildNode(root, i, j);
    }
  }

  /** The data of one node; `content` stands for what the file on disk holds. */
  method GenData(ghost root: FsNode, ghost i: nat, item: Item, node: FsNode) returns (data: seq<Byte>)
    requires Shaped(root) && Numbered(Nodes(root)) && i < |Nodes(root)| && node == Nodes(root)[i]
    requires item == ItemOf(Preorder(root.tree)[i], i)
    ensures data == DataOf(Preorder(root.tree)[i], i)
  {
    NodesMatch(root, i);
    if item.isDir {
      ChildIdsMatch(root, i, node);
      data := GenIds(node, Ids(node.tree.children, i + 1));
    } else {
      data := node.content;
    }
  }

  method GenDataDirectories(flist: seq<Item>, dlist: seq<FsNode>, ghost root: FsNode) returns (data: seq<Byte>)
    requires Shaped(root) && dlist == Nodes(root) && Numbered(dlist) && Items(flist, Preorder(root.tree))
    ensures data == Data(Preorder(root.tree), 0)
  {
    data := [];
    ghost var ts := Preorder(root.tree);
    for i := 0 to |flist|
      invariant data == Data(ts[..i], 0)
    {
      DataSnoc(ts, i);
      var d := GenData(root, i, flist[i], dlist[i]);
      data := data + d;
    }
    assert ts[..|ts|] == ts;
  }

  // ---------- `main` ----------

  /** What the generator writes for the tree, if all sizes fit their fields. */
  predicate Fits(t: Tree) {
    && NamesFit(Preorder(t)) && FILE_DIRECTORY_SIZE * |Preorder(t)| <= MAX_WORD && SizesOf(Preorder(t)) <= MAX_WORD
  }

  method BuildImage(root_dir: FsNode) returns (image: seq<Byte>)
    requires Shaped(root_dir) && root_dir.isDir && Distinct(Nodes(root_dir)) && Fits(root_dir.tree)
    modifies set n | n in Nodes(root_dir) :: n`id
    ensures image == Image(root_dir.tree)
    ensures Numbered(Nodes(root_dir))
  {
    var flat_list := NumberAll(root_dir);
    var bin_list := ById(flat_list, root_dir);
    ghost var ns := Preorder(root_dir.tree);
    var data_dir_size := DataSize(bin_list, ns);
    var file_dir_size := |bin_list| * FILE_DIRECTORY_SIZE;
    var header := GenHeader(file_dir_size, data_dir_size);
    var directories := GenFileDirectories(bin_list, ns);
    var data := GenDataDirectories(bin_list, flat_list, root_dir);
    image := header + directories + data;
    ImageIs(root_dir.tree, file_dir_size, data_dir_size, header, directories, data);
  }

  lemma ImageIs(t: Tree, f: nat, d: nat, header: seq<Byte>, directories: seq<Byte>, data: seq<Byte>)
    requires NamesFit(Preorder(t)) && EntriesFit(Entries(Preorder(t), 0, 0))
    requires f == FILE_DIRECTORY_SIZE * |Preorder(t)| && d == SizesOf(Preorder(t)) && header == Header(f, d)
    requires directories == Records(Entries(Preorder(t), 0, 0)) && data == Data(Preorder(t), 0)
    ensures header + directories + data == Image(t)
  {
  }

  method DataSize(bin_list: seq<Item>, ghost ns: seq<Tree>) returns (data_dir_size: nat)
    requires Items(bin_list, ns)
    ensures data_dir_size == SizesOf(ns)
  {
    data_dir_size := 0;
    for i := 0 to |bin_list|
      invariant data_dir_size == SizesOf(ns[..i])
    {
      SizesSnoc(ns, i);
      data_dir_size := data_dir_size + bin_list[i].size;
    }
    assert ns[..|ns|] == ns;
  }

  /** `root_dir.id = 0` and `flatten_dir(root_dir, 1)`. */
  method NumberAll(root_dir: FsNode) returns (flat_list: seq<FsNode>)
    requires Shaped(root_dir) && root_dir.isDir && Distinct(Nodes(root_dir))
    modifies set n | n in Nodes(root_dir) :: n`id
    ensures flat_list == Nodes(root_dir) && Numbered(flat_list)
  {
    DistinctHead(Nodes(root_dir));
    assert Nodes(root_dir)[0] in Nodes(root_dir) && forall n | n in Nodes(root_dir)[1..] :: n in Nodes(root_dir);
    root_dir.id := 0;
    var next_id: nat;
    flat_list, next_id := FlattenDir(root_dir, 1);
  }

  /** The tuple of one object. */
  method TupleOf(e: FsNode) returns (item: Item)
    requires Shaped(e)
    ensures item == ItemOf(e.tree, e.id)
  {
    if e.isDir {
      ChildCount(e.children, e.tree.children);
      item := Item(e.name, |e.children| * 8, true, e.id);
    } else {
      item := Item(e.name, |e.content|, false, e.id);
    }
  }

  lemma ChildCount(ns: seq<FsNode>, ts: seq<Tree>)
    requires AllShaped(ns, ts)
    ensures |ns| == |ts|
  {
  }

  /** `bin_list`, filled at the index that each id says. */
  method ById(flat_list: seq<FsNode>, ghost root_dir: FsNode) returns (items: seq<Item>)
    requires Shaped(root_dir) && flat_list == Nodes(root_dir) && Numbered(flat_list)
    ensures Items(items, Preorder(root_dir.tree))
  {
    ghost var ns := Preorder(root_dir.tree);
    items := seq(|flat_list|, _ => Item([], 0, false, 0));
    for i := 0 to |flat_list|
      invariant |items| == |flat_list| && forall k | 0 <= k < i :: items[k] == ItemOf(ns[k], k)
    {
      NodesMatch(root_dir, i);
      var e := flat_list[i];
      var item := TupleOf(e);
      items := items[e.id := item];
    }
  }
}
