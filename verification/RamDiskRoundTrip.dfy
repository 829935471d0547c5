/** The generator and the reader together: every node is found under its path with the data it had, and reading
    it bit by bit gives all of it. */
module RamDiskRoundTrip {
  import opened LittleEndian
  import opened Wrappers
  import opened RamDiskTrees
  import opened RamDiskImage
  import opened RamDiskRecords
  import opened RamDiskPaths
  import opened RamDiskReader

  // ---------- From tree to image and back ----------

  lemma {:induction false} NoZeroInJoin(names: seq<Name>)
    requires forall i | 0 <= i < |names| :: 0 !in names[i]
    ensures 0 !in Join(names)
  {
    if |names| == 1 {
      assert 0 !in names[0];
    } else if names != [] {
      NoZeroInJoin(names[1..]);
      assert 0 !in names[0];
    }
  }

  lemma PathIsCPath(t: Tree, k: nat)
    requires Good(t) && k < |Preorder(t)|
    ensures CPath(PathTo(t, k)) && Short(NamesTo(t, k))
  {
    NamesToOk(t, k);
    NoZeroInJoin(NamesTo(t, k));
    var path, s := PathTo(t, k), Join(NamesTo(t, k));
    forall i | 0 <= i < |path| - 1
      ensures path[i] != 0
    {
      if i > 0 {
        assert path[i] == s[i - 1] && s[i - 1] in s;
      }
    }
  }

  lemma PathResolved(image: seq<Byte>, t: Tree, k: nat)
    requires (var readable := Readable(image, t); readable) && k < |Preorder(t)|
    ensures |image| >= HEADER_SIZE && CPath(PathTo(t, k)) && Short(ComponentsOf(PathTo(t, k)))
    ensures Resolved(image, PathTo(t, k)) == Found(k)
  {
    ReadableGood(image, t);
    PathIsCPath(t, k);
    PathSplits(t, k);
    PathFound(image, t, k);
  }

  lemma ReadWhole(image: seq<Byte>, t: Tree, k: nat)
    requires (var readable := Readable(image, t); readable) && k < |Preorder(t)|
    ensures |image| >= HEADER_SIZE
    ensures ReadOf(image, k, 0, SizeOf(Preorder(t)[k])) == Some(DataOf(Preorder(t)[k], k))
  {
    var d := DataOf(Preorder(t)[k], k);
    NodeRead(image, t, k, d, 0, |d|);
    assert d[0..|d|] == d;
  }

  /** What the data of a node says: the content of a file, or the ids of the children. */
  ghost predicate DataSays(t: Tree, k: nat, d: seq<Byte>)
    requires k < |Preorder(t)|
  {
    var u := Preorder(t)[k];
    if u.File? then d == u.content
    else
      var ids := ReadWords(d);
      |ids| == |u.children| &&
      forall j | 0 <= j < |ids| :: ids[j] < |Preorder(t)| && Preorder(t)[ids[j]] == u.children[j]
  }

  /** The path of node `k` is resolved to its id, the record there tells directories from files, and a read gives its
      content or its children's ids. */
  ghost predicate FoundAndRead(image: seq<Byte>, t: Tree, k: nat)
    requires k < |Preorder(t)|
  {
    var d := DataOf(Preorder(t)[k], k);
    && |image| >= HEADER_SIZE && CPath(PathTo(t, k)) && Short(ComponentsOf(PathTo(t, k)))
    && Resolved(image, PathTo(t, k)) == Found(k) && IsDirAt(image, k) == Some(Preorder(t)[k].Dir?)
    && ReadOf(image, k, 0, |d|) == Some(d) && DataSays(t, k, d)
  }

  lemma DataRight(t: Tree, k: nat)
    requires Good(t) && k < |Preorder(t)|
    ensures var says := DataSays(t, k, DataOf(Preorder(t)[k], k)); says
  {
    if Preorder(t)[k].Dir? {
      DirLists(t, k);
    }
  }

  lemma NodeRoundTrip(image: seq<Byte>, t: Tree, k: nat)
    requires (var readable := Readable(image, t); readable) && k < |Preorder(t)|
    ensures var found := FoundAndRead(image, t, k); found
  {
    ReadableGood(image, t);
    PathResolved(image, t, k);
    ReadWhole(image, t, k);
    NodeIsDir(image, t, k);
    DataRight(t, k);
  }

  /** Reading a directory lists its children's ids, and a file gives the null pointer. */
  lemma ReaddirNode(image: seq<Byte>, t: Tree, k: nat, file_list: Option<seq<nat>>, outside: bool)
    requires (var readable := Readable(image, t); readable) && |image| >= HEADER_SIZE && k < |Preorder(t)|
    requires DirReturns(image, k, file_list, outside)
    ensures !outside
    ensures file_list == if Preorder(t)[k].Dir? then Some(Ids(Preorder(t)[k].children, k + 1)) else None
  {
    NodeIsDir(image, t, k);
    if Preorder(t)[k].Dir? {
      DirStep(image, t, k, []);
    }
  }

  /** For every tree and every node: the generator's image is readable, and the node is found and read in it. */
  lemma RoundTrip(t: Tree, k: nat)
    requires Good(t) && k < |Preorder(t)|
    ensures NamesFit(Preorder(t)) && var readable := Readable(Image(t), t); readable
    ensures var found := FoundAndRead(Image(t), t, k); found
  {
    ImageReadable(t);
    NodeRoundTrip(Image(t), t, k);
  }

  /** A path with no file in the way is resolved to node `k` exactly if its components are the names on the way to
      it, and fails exactly where a component names no child. */
  lemma FoundIff(image: seq<Byte>, t: Tree, path: seq<Byte>, k: nat)
    requires var readable := Readable(image, t); readable
    requires CPath(path) && !FileInTheWay(t, 0, ComponentsOf(path))
    ensures |image| >= HEADER_SIZE
    ensures Resolved(image, path) == Found(k) <==> k < |Preorder(t)| && ComponentsOf(path) == NamesTo(t, k)
    ensures Resolved(image, path) == Missing <==> Misses(t, 0, ComponentsOf(path))
  {
    WalkIff(image, t, ComponentsOf(path), k);
  }

  /** The extents follow each other from 0 to the size of the data section: no two share a byte. */
  lemma {:induction false} ExtentsTile(ts: seq<Tree>, i: nat, j: nat)
    requires i < j <= |ts|
    ensures SizesOf(ts[..0]) == 0 && SizesOf(ts[..|ts|]) == SizesOf(ts)
    ensures SizesOf(ts[..i]) + SizeOf(ts[i]) == SizesOf(ts[..i + 1]) <= SizesOf(ts[..j])
    decreases j
  {
    assert ts[..0] == [] && ts[..|ts|] == ts;
    var k := j - 1;
    DataAt(ts, 0, k, SizesOf(ts[..k]), SizesOf(ts[..k]) + SizeOf(ts[k]), k);
    if i < k {
      ExtentsTile(ts, i, k);
    }
  }

  // ---------- Reading a file in pieces ----------

  /** The index after reads of these sizes. */
  function IndexAfter(d: seq<Byte>, index: nat, sizes: seq<nat>): (r: nat)
    requires index <= |d|
    ensures index <= r <= |d|
    decreases |sizes|
  {
    if sizes == [] then index else IndexAfter(d, index + ReadSize(d, index, sizes[0]), sizes[1..])
  }

  /** What the reads return, one after the other. */
  function ReadOut(d: seq<Byte>, index: nat, sizes: seq<nat>): seq<Byte>
    requires index <= |d|
    decreases |sizes|
  {
    if sizes == [] then []
    else
      var next := index + ReadSize(d, index, sizes[0]);
      d[index..next] + ReadOut(d, next, sizes[1..])
  }

  /** Whatever the sizes, the reads return consecutive bytes of the file. */
  lemma {:induction false} ReadsArePrefix(d: seq<Byte>, index: nat, sizes: seq<nat>)
    requires index <= |d|
    ensures ReadOut(d, index, sizes) == d[index..IndexAfter(d, index, sizes)]
    decreases |sizes|
  {
    if sizes != [] {
      var next := index + ReadSize(d, index, sizes[0]);
      ReadsArePrefix(d, next, sizes[1..]);
      assert d[index..next] + d[next..IndexAfter(d, index, sizes)] == d[index..IndexAfter(d, index, sizes)];
    }
  }

  /** Read `i` returns nothing exactly if the reads before it have returned the whole file. */
  lemma {:induction false} ZeroMeansAll(d: seq<Byte>, index: nat, sizes: seq<nat>, i: nat)
    requires index <= |d| && i < |sizes| && forall k | 0 <= k < |sizes| :: sizes[k] > 0
    ensures ReadSize(d, IndexAfter(d, index, sizes[..i]), sizes[i]) == 0 <==>
      ReadOut(d, index, sizes[..i]) == d[index..]
    decreases i
  {
    ReadsArePrefix(d, index, sizes[..i]);
    if IndexAfter(d, index, sizes[..i]) < |d| {
      assert |d[index..IndexAfter(d, index, sizes[..i])]| < |d[index..]|;
    }
  }
}
