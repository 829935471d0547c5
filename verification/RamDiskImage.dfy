/** The bytes of the image: a header, one record of 96 bytes a node, and the data of all nodes in the same
    order (include/fs/rdfs/rdfs.h, tools/fs/genRamDisk.py). */
module RamDiskImage {
  import opened LittleEndian
  import opened RamDiskTrees

  const HEADER_SIZE := 96
  const FILE_DIRECTORY_SIZE := 96
  const DIR_TYPE: Byte := 1
  const FILE_TYPE: Byte := 2
  const DUMMY_PART_SIZE := 0xffff
  const PARTITION_NAME: seq<Byte> := [114, 97, 109, 100, 105, 115, 107]

  function Zeros(n: nat): (s: seq<Byte>)
    ensures |s| == n && forall i | 0 <= i < n :: s[i] == 0
  {
    if n == 0 then [] else [0] + Zeros(n - 1)
  }

  function Word(v: nat): (s: seq<Byte>)
    ensures |s| == 8
  {
    ToBytes(v, 8)
  }

  function Words(vs: seq<nat>): (s: seq<Byte>)
    ensures |s| == 8 * |vs|
  {
    if vs == [] then [] else Word(vs[0]) + Words(vs[1..])
  }

  function SizeOf(t: Tree): nat {
    if t.Dir? then 8 * |t.children| else |t.content|
  }

  /** Where the data of node `k` starts: behind the data of all nodes before it. */
  function SizesOf(ts: seq<Tree>): nat {
    if ts == [] then 0 else SizeOf(ts[0]) + SizesOf(ts[1..])
  }

  /** The root has the empty name, and is stored as "/". */
  function StoredName(name: Name): Name {
    if name == [] then [SLASH] else name
  }

  function NameField(name: Name): (f: seq<Byte>)
    requires |name| < FILE_NAME_SIZE
    ensures |f| == FILE_NAME_SIZE
  {
    StoredName(name) + Zeros(FILE_NAME_SIZE - |StoredName(name)|)
  }

  function Record(t: Tree, id: nat, offset: nat): (r: seq<Byte>)
    requires |t.name| < FILE_NAME_SIZE
    ensures |r| == FILE_DIRECTORY_SIZE
  {
    Word(id) + [if t.Dir? then DIR_TYPE else FILE_TYPE] +
    NameField(t.name) + Word(offset) + Word(SizeOf(t))
  }

  predicate NamesFit(ts: seq<Tree>) {
    forall i | 0 <= i < |ts| :: |ts[i].name| < FILE_NAME_SIZE
  }

  /** What a record holds: a node, its id, and where its data starts. */
  datatype Entry = Entry(node: Tree, id: nat, offset: nat)

  /** The entries of consecutive nodes; each offset is the sum of the sizes before. */
  function Entries(ts: seq<Tree>, id: nat, offset: nat): (es: seq<Entry>)
    ensures |es| == |ts|
    decreases |ts|
  {
    if ts == [] then [] else [Entry(ts[0], id, offset)] + Entries(ts[1..], id + 1, offset + SizeOf(ts[0]))
  }

  predicate EntriesFit(es: seq<Entry>) {
    forall i | 0 <= i < |es| :: |es[i].node.name| < FILE_NAME_SIZE
  }

  function RecordOf(e: Entry): (r: seq<Byte>)
    requires |e.node.name| < FILE_NAME_SIZE
    ensures |r| == FILE_DIRECTORY_SIZE
  {
    Record(e.node, e.id, e.offset)
  }

  function RecordList(es: seq<Entry>): (rs: seq<seq<Byte>>)
    requires EntriesFit(es)
    ensures |rs| == |es| && forall i | 0 <= i < |rs| :: rs[i] == RecordOf(es[i])
  {
    if es == [] then [] else [RecordOf(es[0])] + RecordList(es[1..])
  }

  function Concat(rs: seq<seq<Byte>>): seq<Byte> {
    if rs == [] then [] else rs[0] + Concat(rs[1..])
  }

  function Records(es: seq<Entry>): seq<Byte>
    requires EntriesFit(es)
  {
    Concat(RecordList(es))
  }

  lemma {:induction false} EntriesAt(ts: seq<Tree>, id: nat, offset: nat, i: nat)
    requires i < |ts|
    ensures Entries(ts, id, offset)[i] == Entry(ts[i], id + i, offset + SizesOf(ts[..i]))
    decreases i
  {
    if i > 0 {
      EntriesAt(ts[1..], id + 1, offset + SizeOf(ts[0]), i - 1);
      SizesSplit(ts, i - 1);
    } else {
      assert ts[..0] == [];
    }
  }

  function DataOf(t: Tree, id: nat): (d: seq<Byte>)
    ensures |d| == SizeOf(t)
  {
    if t.Dir? then Words(Ids(t.children, id + 1)) else t.content
  }

  function Data(ts: seq<Tree>, id: nat): (d: seq<Byte>)
    ensures |d| == SizesOf(ts)
    decreases |ts|
  {
    if ts == [] then [] else DataOf(ts[0], id) + Data(ts[1..], id + 1)
  }

  /** The magic number, padding, the size of the partition and its name. */
  function HeaderFront(): (h: seq<Byte>)
    ensures |h| == 80 && h[0] == 0xF5 && h[1] == 0x7D
  {
    [0xF5, 0x7D, 0, 0] + Zeros(4) + Word(DUMMY_PART_SIZE) + (PARTITION_NAME + Zeros(64 - |PARTITION_NAME|))
  }

  /** 80 bytes one by one: the magic number 0x7df5, then the size 0xffff, then "ramdisk" and zeros. */
  ghost predicate FrontHas(h: seq<Byte>) {
    && |h| >= 80 && h[0..8] == [0xF5, 0x7D, 0, 0, 0, 0, 0, 0] && h[8..16] == [0xFF, 0xFF, 0, 0, 0, 0, 0, 0]
    && h[16..23] == [114, 97, 109, 100, 105, 115, 107] && forall i | 23 <= i < 80 :: h[i] == 0
  }

  lemma FrontIs()
    ensures var has := FrontHas(HeaderFront()); has
  {
    SizeBytes();
    var magic: seq<Byte> := [0xF5, 0x7D, 0, 0];
    FrontParts(magic, Zeros(4), Word(DUMMY_PART_SIZE), PARTITION_NAME, Zeros(64 - |PARTITION_NAME|), HeaderFront());
  }

  lemma FrontParts(a: seq<Byte>, b: seq<Byte>, c: seq<Byte>, n: seq<Byte>, z: seq<Byte>, s: seq<Byte>)
    requires s == a + b + c + (n + z) && |a| == 4 && |b| == 4 && |c| == 8 && |n| == 7 && |z| == 57
    requires forall i | 0 <= i < |z| :: z[i] == 0
    ensures s[0..8] == a + b && s[8..16] == c && s[16..23] == n && forall i | 23 <= i < 80 :: s[i] == 0
  {
  }

  lemma SizeBytes()
    ensures Word(DUMMY_PART_SIZE) == [0xFF, 0xFF, 0, 0, 0, 0, 0, 0] && Zeros(4) == [0, 0, 0, 0]
  {
    assert ToBytes(0, 6) == [0, 0, 0, 0, 0, 0];
    assert ToBytes(0xFF, 7) == [0xFF] + ToBytes(0, 6);
  }

  function Header(directory_size: nat, data_size: nat): (h: seq<Byte>)
    ensures |h| == HEADER_SIZE
  {
    HeaderFront() + Word(directory_size) + Word(data_size)
  }

  lemma EntriesOfFit(ts: seq<Tree>)
    requires NamesFit(ts)
    ensures EntriesFit(Entries(ts, 0, 0))
  {
    forall i | 0 <= i < |ts|
      ensures |Entries(ts, 0, 0)[i].node.name| < FILE_NAME_SIZE
    {
      EntriesAt(ts, 0, 0, i);
    }
  }

  /** The image of a tree. */
  function Image(t: Tree): seq<Byte>
    requires NamesFit(Preorder(t))
  {
    var ns := Preorder(t);
    EntriesOfFit(ns);
    Header(FILE_DIRECTORY_SIZE * |ns|, SizesOf(ns)) + Records(Entries(ns, 0, 0)) + Data(ns, 0)
  }

  // ---------- Reading it back ----------

  function Read64(s: seq<Byte>, at: nat): nat
    requires at + 8 <= |s|
  {
    FromBytes(s[at..at + 8])
  }

  /** The bytes from `at` up to a NUL, as C reads a string. */
  function CString(s: seq<Byte>): Name {
    if s == [] || s[0] == 0 then [] else [s[0]] + CString(s[1..])
  }

  lemma {:induction false} CStringPadded(name: Name, zeros: seq<Byte>)
    requires 0 !in name && (forall i | 0 <= i < |zeros| :: zeros[i] == 0)
    ensures CString(name + zeros) == name
  {
    if name == [] {
      assert name + zeros == zeros;
    } else {
      assert (name + zeros)[1..] == name[1..] + zeros;
      CStringPadded(name[1..], zeros);
    }
  }

  lemma SliceTail<T>(a: seq<T>, b: seq<T>, s: seq<T>, lo: nat, hi: nat, lo': nat, hi': nat)
    requires s == a + b && lo == |a| + lo' && hi == |a| + hi' && lo' <= hi' <= |b|
    ensures s[lo..hi] == b[lo'..hi']
  {
  }

  lemma SliceHead<T>(a: seq<T>, b: seq<T>, s: seq<T>, n: nat)
    requires s == a + b && n == |a|
    ensures s[0..n] == a
  {
  }

  lemma FiveParts<T>(a: seq<T>, b: T, c: seq<T>, d: seq<T>, e: seq<T>, s: seq<T>)
    requires s == a + [b] + c + d + e && |a| == 8 && |c| == 71 && |d| == 8 && |e| == 8
    ensures s[0..8] == a && s[8] == b && s[9..80] == c && s[80..88] == d && s[88..96] == e
  {
  }

  lemma NameFieldRead(name: Name)
    requires |name| < FILE_NAME_SIZE && 0 !in name
    ensures CString(NameField(name)) == StoredName(name)
  {
    CStringPadded(StoredName(name), Zeros(FILE_NAME_SIZE - |StoredName(name)|));
  }

  /** What the reader finds in a record is what the writer put there. */
  lemma RecordFields(t: Tree, id: nat, offset: nat)
    requires |t.name| < FILE_NAME_SIZE && 0 !in t.name && id <= MAX_WORD && offset <= MAX_WORD && SizeOf(t) <= MAX_WORD
    ensures var r := Record(t, id, offset);
      && Read64(r, 0) == id && r[8] == (if t.Dir? then 1 else 2)
      && CString(r[9..80]) == StoredName(t.name) && Read64(r, 80) == offset && Read64(r, 88) == SizeOf(t)
  {
    WordRoundTrip(id);
    WordRoundTrip(offset);
    WordRoundTrip(SizeOf(t));
    NameFieldRead(t.name);
    var kind := if t.Dir? then DIR_TYPE else FILE_TYPE;
    FiveParts(Word(id), kind, NameField(t.name), Word(offset), Word(SizeOf(t)), Record(t, id, offset));
  }

  lemma SizesSplit(ts: seq<Tree>, i: nat)
    requires i < |ts|
    ensures SizesOf(ts[..i + 1]) == SizeOf(ts[0]) + SizesOf(ts[1..][..i])
  {
    assert ts[..i + 1][1..] == ts[1..][..i];
  }

  lemma {:induction false} ConcatAt(rs: seq<seq<Byte>>, n: nat, i: nat, at: nat)
    requires (forall k | 0 <= k < |rs| :: |rs[k]| == n) && i < |rs| && at == n * i
    ensures |Concat(rs)| == n * |rs| && at + n <= |Concat(rs)| && Concat(rs)[at..at + n] == rs[i]
    decreases i
  {
    ConcatLength(rs, n);
    if i > 0 {
      assert at - n == n * (i - 1);
      ConcatAt(rs[1..], n, i - 1, at - n);
      SliceTail(rs[0], Concat(rs[1..]), Concat(rs), at, at + n, at - n, at - n + n);
    } else {
      SliceHead(rs[0], Concat(rs[1..]), Concat(rs), n);
    }
  }

  lemma {:induction false} ConcatLength(rs: seq<seq<Byte>>, n: nat)
    requires forall k | 0 <= k < |rs| :: |rs[k]| == n
    ensures |Concat(rs)| == n * |rs|
  {
    if rs != [] {
      ConcatLength(rs[1..], n);
      assert n + n * (|rs| - 1) == n * |rs|;
    }
  }

  /** Record `i` is where an index of 96-byte structures looks for it. */
  lemma RecordAt(es: seq<Entry>, i: nat, at: nat)
    requires EntriesFit(es) && i < |es| && at == FILE_DIRECTORY_SIZE * i
    ensures |Records(es)| == FILE_DIRECTORY_SIZE * |es| && at + FILE_DIRECTORY_SIZE <= |Records(es)|
    ensures Records(es)[at..at + FILE_DIRECTORY_SIZE] == RecordOf(es[i])
  {
    ConcatAt(RecordList(es), FILE_DIRECTORY_SIZE, i, at);
  }

  /** The extents tile the data: node `i` has the bytes from the sum of the sizes before it. */
  lemma {:induction false} DataAt(ts: seq<Tree>, id: nat, i: nat, lo: nat, hi: nat, id': nat)
    requires i < |ts| && lo == SizesOf(ts[..i]) && hi == lo + SizeOf(ts[i]) && id' == id + i
    ensures hi == SizesOf(ts[..i + 1]) <= SizesOf(ts)
    ensures Data(ts, id)[lo..hi] == DataOf(ts[i], id')
    decreases i
  {
    var head, rest, n := DataOf(ts[0], id), ts[1..], SizeOf(ts[0]);
    var tail := Data(rest, id + 1);
    SizesSplit(ts, i);
    if i > 0 {
      SizesSplit(ts, i - 1);
      DataAt(rest, id + 1, i - 1, lo - n, hi - n, id');
      SliceTail(head, tail, Data(ts, id), lo, hi, lo - n, hi - n);
    } else {
      assert rest[..0] == [];
      SliceHead(head, tail, Data(ts, id), n);
    }
  }
}
