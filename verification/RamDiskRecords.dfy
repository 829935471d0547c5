/** What is where in the image, and which bytes are an image of a tree. */
module RamDiskRecords {
  import opened LittleEndian
  import opened RamDiskTrees
  import opened RamDiskImage

  /** A tree whose image can lie in memory, at an address other than 0. */
  predicate Good(t: Tree) {
    && t.Dir? && t.name == [] && WellNamed(t)
    && HEADER_SIZE + FILE_DIRECTORY_SIZE * |Preorder(t)| + SizesOf(Preorder(t)) <= MAX_WORD
  }

  lemma {:induction false} NamesOkBelow(t: Tree, k: nat)
    requires WellNamed(t) && k < |Preorder(t)|
    ensures WellNamed(Preorder(t)[k])
    decreases t
  {
    if k > 0 {
      NamesOkAmong(t.children, k - 1);
    }
  }

  lemma {:induction false} NamesOkAmong(ts: seq<Tree>, k: nat)
    requires AllWellNamed(ts) && k < |PreorderAll(ts)|
    ensures WellNamed(PreorderAll(ts)[k]) && NameOk(PreorderAll(ts)[k].name)
    decreases ts
  {
    if k < |Preorder(ts[0])| {
      NamesOkBelow(ts[0], k);
      if k > 0 {
        NamesOkAmong(ts[0].children, k - 1);
      }
    } else {
      NamesOkAmong(ts[1..], k - |Preorder(ts[0])|);
    }
  }

  /** Every node but the root has a proper name, and the root the empty one. */
  lemma NodeName(t: Tree, k: nat)
    requires Good(t) && k < |Preorder(t)|
    ensures if k == 0 then Preorder(t)[k].name == [] else NameOk(Preorder(t)[k].name)
    ensures StoredName(Preorder(t)[k].name) == if k == 0 then [SLASH] else Preorder(t)[k].name
  {
    if k > 0 {
      NamesOkAmong(t.children, k - 1);
    }
  }

  // ---------- Words in data ----------

  /** The words in the data of a node. */
  function ReadWords(d: seq<Byte>): (ws: seq<nat>)
    ensures |ws| == |d| / 8
    decreases |d|
  {
    if |d| < 8 then [] else [FromBytes(d[..8])] + ReadWords(d[8..])
  }

  lemma {:induction false} ReadWordsBack(vs: seq<nat>)
    requires forall i | 0 <= i < |vs| :: vs[i] <= MAX_WORD
    ensures ReadWords(Words(vs)) == vs
  {
    if vs != [] {
      ReadWordsBack(vs[1..]);
      WordRoundTrip(vs[0]);
      assert Words(vs)[..8] == Word(vs[0]) && Words(vs)[8..] == Words(vs[1..]);
    }
  }

  // ---------- What is where in the image ----------

  lemma Slice2(a: seq<Byte>, b: seq<Byte>, c: seq<Byte>, s: seq<Byte>, lo: nat, hi: nat, lo': nat, hi': nat)
    requires s == a + b + c && lo' <= hi' <= |b| && lo == |a| + lo' && hi == |a| + hi'
    ensures s[lo..hi] == b[lo'..hi']
  {
    assert s == a + (b + c);
    SliceTail(a, b + c, s, lo, hi, lo', hi');
    assert (b + c)[lo'..hi'] == b[lo'..hi'];
  }

  ghost predicate HeaderHas(h: seq<Byte>, f: nat, d: nat) {
    |h| == HEADER_SIZE && h[0] == 0xF5 && h[1] == 0x7D && h[80..88] == Word(f) && h[88..96] == Word(d)
  }

  lemma HeaderParts(f: nat, d: nat)
    ensures var has := HeaderHas(Header(f, d), f, d); has
  {
    LastWords(HeaderFront(), Word(f), Word(d), Header(f, d));
  }

  lemma LastWords(a: seq<Byte>, x: seq<Byte>, y: seq<Byte>, s: seq<Byte>)
    requires s == a + x + y && |a| == 80 && |x| == 8 && |y| == 8
    ensures |s| == 96 && s[0] == a[0] && s[1] == a[1] && s[80..88] == x && s[88..96] == y
  {
  }

  /** The three sections. */
  ghost predicate Sections(image: seq<Byte>, t: Tree, header: seq<Byte>, records: seq<Byte>, data: seq<Byte>) {
    && Good(t) && EntriesFit(Entries(Preorder(t), 0, 0))
    && image == header + records + data
    && |records| == FILE_DIRECTORY_SIZE * |Preorder(t)|
    && HeaderHas(header, FILE_DIRECTORY_SIZE * |Preorder(t)|, SizesOf(Preorder(t)))
    && records == Records(Entries(Preorder(t), 0, 0)) && data == Data(Preorder(t), 0)
  }

  lemma GoodFits(t: Tree)
    requires Good(t)
    ensures NamesFit(Preorder(t))
  {
    forall i | 0 <= i < |Preorder(t)|
      ensures |Preorder(t)[i].name| < FILE_NAME_SIZE
    {
      NodeName(t, i);
    }
  }

  lemma InSections(t: Tree) returns (header: seq<Byte>, records: seq<Byte>, data: seq<Byte>)
    requires Good(t) && NamesFit(Preorder(t))
    ensures var sections := Sections(Image(t), t, header, records, data); sections
  {
    var ns := Preorder(t);
    EntriesOfFit(ns);
    header, records, data := Header(FILE_DIRECTORY_SIZE * |ns|, SizesOf(ns)), Records(Entries(ns, 0, 0)), Data(ns, 0);
    HeaderParts(FILE_DIRECTORY_SIZE * |ns|, SizesOf(ns));
    RecordAt(Entries(ns, 0, 0), 0, 0);
  }

  /** The fields of the record at `at`. */
  ghost predicate FieldsAre(image: seq<Byte>, at: nat, u: Tree, id: nat, offset: nat) {
    && at + FILE_DIRECTORY_SIZE <= |image|
    && Read64(image, at) == id && image[at + 8] == (if u.Dir? then 1 else 2)
    && CString(image[at + 9..at + 80]) == StoredName(u.name)
    && Read64(image, at + 80) == offset && Read64(image, at + 88) == SizeOf(u)
  }

  ghost predicate ExtentIs(image: seq<Byte>, location: nat, d: seq<Byte>) {
    location + |d| <= |image| && image[location..location + |d|] == d
  }

  /** Where the fields of record `k` and the data of node `k` are. */
  ghost predicate RecordIs(image: seq<Byte>, t: Tree, k: nat)
    requires k < |Preorder(t)|
  {
    var offset := SizesOf(Preorder(t)[..k]);
    var fields := FieldsAre(image, HEADER_SIZE + FILE_DIRECTORY_SIZE * k, Preorder(t)[k], k, offset);
    var data := ExtentIs(image, FILE_DIRECTORY_SIZE * |Preorder(t)| + offset + HEADER_SIZE, DataOf(Preorder(t)[k], k));
    fields && data
  }

  ghost predicate HeaderIs(image: seq<Byte>, t: Tree) {
    && |image| >= HEADER_SIZE && image[0] == 0xF5 && image[1] == 0x7D
    && Read64(image, 80) == FILE_DIRECTORY_SIZE * |Preorder(t)| && Read64(image, 88) == SizesOf(Preorder(t))
  }

  lemma HeaderRead(t: Tree)
    requires Good(t) && NamesFit(Preorder(t))
    ensures var read := HeaderIs(Image(t), t); read
  {
    var header, records, data := InSections(t);
    HeaderIn(Image(t), t, header, records, data, FILE_DIRECTORY_SIZE * |Preorder(t)|, SizesOf(Preorder(t)));
  }

  lemma HeaderIn(image: seq<Byte>, t: Tree, header: seq<Byte>, records: seq<Byte>, data: seq<Byte>, f: nat, d: nat)
    requires image == header + records + data && HeaderHas(header, f, d)
    requires f == FILE_DIRECTORY_SIZE * |Preorder(t)| <= MAX_WORD && d == SizesOf(Preorder(t)) <= MAX_WORD
    ensures HeaderIs(image, t)
  {
    WordRoundTrip(f);
    WordRoundTrip(d);
    FrontOf(header, records, data, image);
  }

  lemma FrontOf(header: seq<Byte>, records: seq<Byte>, data: seq<Byte>, image: seq<Byte>)
    requires image == header + records + data && |header| == 96
    ensures image[0] == header[0] && image[1] == header[1]
    ensures image[80..88] == header[80..88] && image[88..96] == header[88..96]
  {
  }

  /** What a record says, once decoded. */
  ghost predicate RecordHas(r: seq<Byte>, u: Tree, id: nat, offset: nat) {
    && |r| == FILE_DIRECTORY_SIZE
    && Read64(r, 0) == id && r[8] == (if u.Dir? then 1 else 2) && CString(r[9..80]) == StoredName(u.name)
    && Read64(r, 80) == offset && Read64(r, 88) == SizeOf(u)
  }

  lemma EntryHas(e: Entry)
    requires |e.node.name| < FILE_NAME_SIZE && 0 !in e.node.name && e.id <= MAX_WORD && e.offset <= MAX_WORD
    requires SizeOf(e.node) <= MAX_WORD
    ensures var has := RecordHas(RecordOf(e), e.node, e.id, e.offset); has
  {
    RecordFields(e.node, e.id, e.offset);
  }

  lemma SizesPrefix(ts: seq<Tree>, i: nat)
    requires i < |ts|
    ensures SizesOf(ts[..i]) + SizeOf(ts[i]) <= SizesOf(ts)
  {
    DataAt(ts, 0, i, SizesOf(ts[..i]), SizesOf(ts[..i]) + SizeOf(ts[i]), i);
  }

  lemma RecordOfNode(t: Tree, k: nat, at: nat) returns (r: seq<Byte>)
    requires Good(t) && EntriesFit(Entries(Preorder(t), 0, 0)) && k < |Preorder(t)| && at == FILE_DIRECTORY_SIZE * k
    ensures at + FILE_DIRECTORY_SIZE <= |Records(Entries(Preorder(t), 0, 0))|
    ensures r == Records(Entries(Preorder(t), 0, 0))[at..at + FILE_DIRECTORY_SIZE]
    ensures var has := RecordHas(r, Preorder(t)[k], k, SizesOf(Preorder(t)[..k])); has
  {
    var es := Entries(Preorder(t), 0, 0);
    EntriesAt(Preorder(t), 0, 0, k);
    NodeName(t, k);
    SizesPrefix(Preorder(t), k);
    EntryHas(es[k]);
    RecordAt(es, k, at);
    r := RecordOf(es[k]);
  }

  /** A record as bytes: what is read at `at` is what is in the record alone. */
  lemma RecordIn(image: seq<Byte>, r: seq<Byte>, at: nat, u: Tree, id: nat, offset: nat)
    requires at + FILE_DIRECTORY_SIZE <= |image| && image[at..at + FILE_DIRECTORY_SIZE] == r
    requires RecordHas(r, u, id, offset)
    ensures var fields := FieldsAre(image, at, u, id, offset); fields
  {
    Within(image, at, r, 0, 8, at, at + 8);
    Within(image, at, r, 9, 80, at + 9, at + 80);
    Within(image, at, r, 80, 88, at + 80, at + 88);
    Within(image, at, r, 88, 96, at + 88, at + 96);
  }

  lemma DataFound(image: seq<Byte>, t: Tree, front: seq<Byte>, data: seq<Byte>, k: nat, offset: nat, size: nat,
          location: nat)
    requires image == front + data && data == Data(Preorder(t), 0) && k < |Preorder(t)|
    requires offset == SizesOf(Preorder(t)[..k]) && size == SizeOf(Preorder(t)[k]) && location == |front| + offset
    ensures var extent := ExtentIs(image, location, DataOf(Preorder(t)[k], k)); extent
  {
    DataAt(Preorder(t), 0, k, offset, offset + size, k);
    SliceTail(front, data, image, location, location + size, offset, offset + size);
  }

  lemma RecordInSections(image: seq<Byte>, t: Tree, header: seq<Byte>, records: seq<Byte>, data: seq<Byte>, k: nat)
    requires Sections(image, t, header, records, data) && k < |Preorder(t)|
    ensures var read := RecordIs(image, t, k); read
  {
    var at, i := HEADER_SIZE + FILE_DIRECTORY_SIZE * k, FILE_DIRECTORY_SIZE * k;
    var u, offset := Preorder(t)[k], SizesOf(Preorder(t)[..k]);
    var r := RecordOfNode(t, k, i);
    Slice2(header, records, data, image, at, at + FILE_DIRECTORY_SIZE, i, i + FILE_DIRECTORY_SIZE);
    RecordIn(image, r, at, u, k, offset);
    var location := FILE_DIRECTORY_SIZE * |Preorder(t)| + offset + HEADER_SIZE;
    DataFound(image, t, header + records, data, k, offset, SizeOf(u), location);
    RecordFromParts(image, t, k, at, u, offset, location);
  }

  lemma RecordFromParts(image: seq<Byte>, t: Tree, k: nat, at: nat, u: Tree, offset: nat, location: nat)
    requires k < |Preorder(t)| && at == HEADER_SIZE + FILE_DIRECTORY_SIZE * k && u == Preorder(t)[k]
    requires offset == SizesOf(Preorder(t)[..k])
    requires location == FILE_DIRECTORY_SIZE * |Preorder(t)| + offset + HEADER_SIZE
    requires var fields := FieldsAre(image, at, u, k, offset); fields
    requires var extent := ExtentIs(image, location, DataOf(u, k)); extent
    ensures var read := RecordIs(image, t, k); read
  {
  }

  /** Every record reads back, and the data lies where `DATA_LOCATION` looks for it. */
  lemma RecordRead(t: Tree, k: nat)
    requires Good(t) && NamesFit(Preorder(t)) && k < |Preorder(t)|
    ensures var read := RecordIs(Image(t), t, k); read
  {
    var header, records, data := InSections(t);
    RecordInSections(Image(t), t, header, records, data, k);
  }

  /** Bytes from which the nodes of a tree can be read. */
  ghost predicate Readable(image: seq<Byte>, t: Tree) {
    && Good(t) && |image| <= MAX_WORD && HeaderIs(image, t)
    && forall k | 0 <= k < |Preorder(t)| :: RecordIs(image, t, k)
  }

  /** The first 80 bytes of the generator's image, which the reader does not look at but for the first two. */
  lemma HeaderBytes(t: Tree)
    requires Good(t)
    ensures NamesFit(Preorder(t)) && var front := FrontHas(Image(t)); front
  {
    GoodFits(t);
    FrontIs();
    var ns := Preorder(t);
    EntriesOfFit(ns);
    var f, d := FILE_DIRECTORY_SIZE * |ns|, SizesOf(ns);
    FrontStays(HeaderFront(), Word(f), Word(d), Records(Entries(ns, 0, 0)), Data(ns, 0), Image(t));
  }

  lemma FrontStays(front: seq<Byte>, a: seq<Byte>, b: seq<Byte>, c: seq<Byte>, d: seq<Byte>, s: seq<Byte>)
    requires s == front + a + b + c + d && |front| == 80 && FrontHas(front)
    ensures var has := FrontHas(s); has
  {
    assert s[0..8] == front[0..8] && s[8..16] == front[8..16] && s[16..23] == front[16..23];
    assert forall i | 0 <= i < 80 :: s[i] == front[i];
  }

  /** The type byte of every record: 1 exactly for a directory, and 2 for a file. */
  lemma TypeByte(image: seq<Byte>, t: Tree, k: nat)
    requires Readable(image, t) && k < |Preorder(t)|
    ensures 96 * (k + 1) + 8 < |image| && image[96 * (k + 1) + 8] == if Preorder(t)[k].Dir? then 1 else 2
  {
    assert RecordIs(image, t, k);
  }

  lemma ImageSize(t: Tree)
    requires Good(t) && NamesFit(Preorder(t))
    ensures |Image(t)| == HEADER_SIZE + FILE_DIRECTORY_SIZE * |Preorder(t)| + SizesOf(Preorder(t)) <= MAX_WORD
  {
    var header, records, data := InSections(t);
  }

  /** The generator's image is readable. */
  lemma ImageReadable(t: Tree)
    requires Good(t)
    ensures NamesFit(Preorder(t)) && var readable := Readable(Image(t), t); readable
  {
    GoodFits(t);
    HeaderRead(t);
    ImageSize(t);
    forall k | 0 <= k < |Preorder(t)|
      ensures RecordIs(Image(t), t, k)
    {
      RecordRead(t, k);
    }
  }

  lemma {:induction false} ReadWordsAt(d: seq<Byte>, i: nat, at: nat)
    requires at == 8 * i && at + 8 <= |d|
    ensures ReadWords(d)[i] == FromBytes(d[at..at + 8])
    decreases i
  {
    if i > 0 {
      ReadWordsAt(d[8..], i - 1, at - 8);
      DropSlice(d, 8, at - 8, at - 8 + 8, at, at + 8);
    }
  }

  lemma DropSlice<T>(s: seq<T>, n: nat, lo: nat, hi: nat, lo': nat, hi': nat)
    requires lo <= hi && n + hi <= |s| && lo' == n + lo && hi' == n + hi
    ensures s[n..][lo..hi] == s[lo'..hi']
  {
  }

  lemma WordInData(image: seq<Byte>, location: nat, d: seq<Byte>, i: nat, lo: nat, at: nat)
    requires ExtentIs(image, location, d) && i < |d| / 8 && lo == 8 * i && at == location + lo
    ensures at + 8 <= |image| && Read64(image, at) == ReadWords(d)[i]
  {
    WordRead(image, location, d, lo, at);
    ReadWordsAt(d, i, lo);
  }

  lemma WordRead(image: seq<Byte>, location: nat, d: seq<Byte>, lo: nat, at: nat)
    requires ExtentIs(image, location, d) && lo + 8 <= |d| && at == location + lo
    ensures at + 8 <= |image| && Read64(image, at) == FromBytes(d[lo..lo + 8])
  {
    Within(image, location, d, lo, lo + 8, at, at + 8);
  }

  lemma Within<T>(s: seq<T>, at: nat, d: seq<T>, lo: nat, hi: nat, lo': nat, hi': nat)
    requires at + |d| <= |s| && s[at..at + |d|] == d && lo <= hi <= |d| && lo' == at + lo && hi' == at + hi
    ensures s[lo'..hi'] == d[lo..hi]
  {
    forall k | 0 <= k < hi - lo
      ensures s[lo'..hi'][k] == d[lo..hi][k]
    {
      assert s[at..at + |d|][lo + k] == s[lo' + k];
    }
  }
}
