/** Paths with more components behind one that leads to a file.  `rdfs_file_get_id_from_path` does not check the type of
    what it has found: it takes the words of the file for ids, and looks for their records wherever these would be. */
module RamDiskStrays {
  import opened LittleEndian
  import opened Wrappers
  import opened RamDiskTrees
  import opened RamDiskImage
  import opened RamDiskRecords
  import opened RamDiskPaths

  // ---------- Which record a word addresses ----------

  /** The address of a record is computed in 64 bits, and 96 is 3 * 32: ids count modulo 2 to the 59. */
  const IDS := 0x800_0000_0000_0000

  function Slot(id: nat): nat {
    id % IDS
  }

  /** Two ids address the same record exactly if they agree modulo 2 to the 59. */
  lemma SameRecord(id: nat, id': nat, field: nat)
    ensures FieldAt(id, field) == FieldAt(id', field) <==> Slot(id) == Slot(id')
  {
    var n := HEADER_SIZE + field;
    Residues(n + FILE_DIRECTORY_SIZE * id, n + FILE_DIRECTORY_SIZE * id');
    Multiples(id - id');
    SlotResidues(id, id');
  }

  lemma Residues(a: nat, b: nat)
    ensures a % ADDRESSES == b % ADDRESSES <==> (a - b) % ADDRESSES == 0
  {
    assert a - b == a % ADDRESSES - b % ADDRESSES + ADDRESSES * (a / ADDRESSES - b / ADDRESSES);
  }

  lemma SlotResidues(a: nat, b: nat)
    ensures Slot(a) == Slot(b) <==> (a - b) % IDS == 0
  {
    assert a - b == a % IDS - b % IDS + IDS * (a / IDS - b / IDS);
  }

  lemma Multiples(d: int)
    ensures FILE_DIRECTORY_SIZE * d % ADDRESSES == 0 <==> d % IDS == 0
  {
    if FILE_DIRECTORY_SIZE * d % ADDRESSES == 0 {
      var m := FILE_DIRECTORY_SIZE * d / ADDRESSES;
      var x := m - (d - IDS / 3 * m);
      assert 3 * d == IDS * m && m == 3 * x && d == IDS * x;
    }
  }

  /** The record of a node, addressed by any id. */
  lemma SlotWalk(image: seq<Byte>, id: nat, names: seq<Name>)
    requires |image| >= HEADER_SIZE && names != []
    ensures Walk(image, id, names) == Walk(image, Slot(id), names)
  {
    SameRecord(id, Slot(id), OFFSET_FIELD);
    SameRecord(id, Slot(id), SIZE_FIELD);
    assert Listed(image, id) == Listed(image, Slot(id));
  }

  /** An id that addresses the record of a node is compared by the node's name. */
  lemma SlotCompare(image: seq<Byte>, t: Tree, id: nat, name: Name)
    requires (var readable := Readable(image, t); readable) && Slot(id) < |Preorder(t)|
    ensures CompareAt(image, id, name) == if StoredName(Preorder(t)[Slot(id)].name) == name then Same else Differs
  {
    SameRecord(id, Slot(id), NAME_FIELD);
    NodeCompare(image, t, Slot(id), name);
  }

  // ---------- A file in the way ----------

  /** The file that the walk takes for a directory, and the components that are left there. */
  function FileReached(t: Tree, k: nat, names: seq<Name>): (r: (nat, seq<Name>))
    requires k < |Preorder(t)| && FileInTheWay(t, k, names)
    ensures r.0 < |Preorder(t)| && Preorder(t)[r.0].File? && r.1 != [] && |r.1| <= |names|
    decreases |names|
  {
    var u := Preorder(t)[k];
    if u.File? then (k, names) else FileReached(t, Ids(u.children, k + 1)[ChildNamed(u.children, names[0])], names[1..])
  }

  lemma {:induction false} NothingBehindFile(image: seq<Byte>, t: Tree, k: nat, names: seq<Name>)
    requires (var readable := Readable(image, t); readable) && k < |Preorder(t)| && FileInTheWay(t, k, names)
    ensures |image| >= HEADER_SIZE && Answer(t, k, names) == Missing
    ensures var f := FileReached(t, k, names); Walk(image, k, names) == Walk(image, f.0, f.1)
    decreases |names|
  {
    ReadableSize(image, t);
    var u := Preorder(t)[k];
    if u.Dir? {
      var ids, j := Ids(u.children, k + 1), ChildNamed(u.children, names[0]);
      DirStep(image, t, k, names[0]);
      WalkStep(image, k, names, ids, j);
      ResolveStep(u.children, k + 1, names);
      ChildAt(t, k, j);
      NothingBehindFile(image, t, ids[j], names[1..]);
    }
  }

  /** The words that the scan for a name looks at end in the word that stops it, if there is one: the first whose record
      does not hold another name. */
  function StopWord(image: seq<Byte>, ws: seq<nat>, name: Name): Option<nat> {
    var j := Scan(image, ws, name);
    if j == |ws| then None else Some(ws[j])
  }

  /** Where the names lead from id `id`, a byte behind the image is read.  From a node they lead to a file and on, and
      the words of the file lead there; from an id that is no node's, the record it addresses or its data is not in the
      image, or lists words that lead there. */
  predicate LeavesImage(image: seq<Byte>, t: Tree, id: nat, names: seq<Name>)
    requires |image| >= HEADER_SIZE
    decreases |names|, 1
  {
    if Slot(id) < |Preorder(t)| then
      FileInTheWay(t, Slot(id), names) &&
      var (f, rest) := FileReached(t, Slot(id), names);
      WordsLeave(image, t, ReadWords(Preorder(t)[f].content), rest)
    else
      names != [] && (Listed(image, id) == None || WordsLeave(image, t, Listed(image, id).value, names))
  }

  /** The word that stops the scan addresses a record whose name runs out of the image, or leads out of it by the names
      that are left. */
  predicate WordsLeave(image: seq<Byte>, t: Tree, ws: seq<nat>, names: seq<Name>)
    requires |image| >= HEADER_SIZE && names != []
    decreases |names|, 0
  {
    var word := StopWord(image, ws, names[0]);
    word.Some? && (CompareAt(image, word.value, names[0]) == RunsOut || LeavesImage(image, t, word.value, names[1..]))
  }

  /** The names lead from id `id` to some record.  From a node the tree has them all, or they lead to a file and on, and
      the words of the file lead there; from an id that is no node's there are none, or the record it addresses lists
      words that lead there. */
  ghost predicate Lands(image: seq<Byte>, t: Tree, id: nat, names: seq<Name>)
    requires |image| >= HEADER_SIZE
    decreases |names|, 1
  {
    if Slot(id) < |Preorder(t)| then
      if FileInTheWay(t, Slot(id), names) then
        var (f, rest) := FileReached(t, Slot(id), names);
        WordsLand(image, t, ReadWords(Preorder(t)[f].content), rest)
      else !Misses(t, Slot(id), names)
    else
      names == [] || (Listed(image, id).Some? && WordsLand(image, t, Listed(image, id).value, names))
  }

  /** The word that stops the scan addresses a record of that name, and leads to a record by the names that are left. */
  ghost predicate WordsLand(image: seq<Byte>, t: Tree, ws: seq<nat>, names: seq<Name>)
    requires |image| >= HEADER_SIZE && names != []
    decreases |names|, 0
  {
    var word := StopWord(image, ws, names[0]);
    word.Some? && CompareAt(image, word.value, names[0]) == Same && Lands(image, t, word.value, names[1..])
  }

  /** The names lead to a file and on, and the words of the file lead to a record. */
  ghost predicate GoesAstray(image: seq<Byte>, t: Tree, k: nat, names: seq<Name>)
    requires |image| >= HEADER_SIZE && k < |Preorder(t)|
  {
    FileInTheWay(t, k, names) && Lands(image, t, k, names)
  }

  /** The words in the data of a record, whatever record it is. */
  lemma {:induction false} WordsOutcome(image: seq<Byte>, t: Tree, id: nat, ws: seq<nat>, names: seq<Name>)
    requires (var readable := Readable(image, t); readable) && |image| >= HEADER_SIZE && names != []
    requires Listed(image, id) == Some(ws)
    ensures Walk(image, id, names) == Outside <==> WordsLeave(image, t, ws, names)
    ensures var lands := WordsLand(image, t, ws, names); Walk(image, id, names).Found? <==> lands
    decreases |names|, 0
  {
    var j := Scan(image, ws, names[0]);
    WalkStep(image, id, names, ws, j);
    if j < |ws| {
      WalkOutcome(image, t, ws[j], names[1..]);
    }
  }

  /** For every image, every id and all names: the reader reads behind the image exactly if the names lead out of it,
      and finds something exactly if they lead to a record. */
  lemma {:induction false} WalkOutcome(image: seq<Byte>, t: Tree, id: nat, names: seq<Name>)
    requires (var readable := Readable(image, t); readable) && |image| >= HEADER_SIZE
    ensures Walk(image, id, names) == Outside <==> LeavesImage(image, t, id, names)
    ensures var lands := Lands(image, t, id, names); Walk(image, id, names).Found? <==> lands
    decreases |names|, 2
  {
    var k := Slot(id);
    if k < |Preorder(t)| {
      NodeOutcome(image, t, id, names);
    } else if names != [] && Listed(image, id).Some? {
      WordsOutcome(image, t, id, Listed(image, id).value, names);
    }
  }

  lemma {:induction false} NodeOutcome(image: seq<Byte>, t: Tree, id: nat, names: seq<Name>)
    requires (var readable := Readable(image, t); readable) && |image| >= HEADER_SIZE && Slot(id) < |Preorder(t)|
    ensures Walk(image, id, names) == Outside <==> LeavesImage(image, t, id, names)
    ensures var lands := Lands(image, t, id, names); Walk(image, id, names).Found? <==> lands
    decreases |names|, 1
  {
    var k := Slot(id);
    if names != [] {
      SlotWalk(image, id, names);
    }
    if FileInTheWay(t, k, names) {
      NothingBehindFile(image, t, k, names);
      var (f, rest) := FileReached(t, k, names);
      NodeListed(image, t, f);
      WordsOutcome(image, t, f, ReadWords(Preorder(t)[f].content), rest);
    } else {
      WalkIsResolve(image, t, k, names);
      ResolveFails(t, k, names);
    }
  }

  /** The reader's answer is the tree's exactly if the names lead neither out of the image nor astray. */
  lemma AgreesIff(image: seq<Byte>, t: Tree, names: seq<Name>)
    requires (var readable := Readable(image, t); readable) && |image| >= HEADER_SIZE
    ensures Walk(image, 0, names) == Answer(t, 0, names) <==>
      !LeavesImage(image, t, 0, names) && !GoesAstray(image, t, 0, names)
  {
    WalkOutcome(image, t, 0, names);
    if FileInTheWay(t, 0, names) {
      NothingBehindFile(image, t, 0, names);
    } else {
      WalkIsResolve(image, t, 0, names);
    }
  }

  /** For one component too many: right exactly if every word of the file addresses a record of another name. */
  lemma OneTooMany(image: seq<Byte>, t: Tree, k: nat, name: Name)
    requires (var readable := Readable(image, t); readable) && |image| >= HEADER_SIZE
    requires k < |Preorder(t)| && Preorder(t)[k].File?
    ensures Walk(image, k, [name]) == Answer(t, k, [name]) <==>
      forall w | w in ReadWords(Preorder(t)[k].content) :: CompareAt(image, w, name) == Differs
  {
    var ws := ReadWords(Preorder(t)[k].content);
    var j := Scan(image, ws, name);
    NodeListed(image, t, k);
    WalkStep(image, k, [name], ws, j);
    assert [name][1..] == [];
    if j == |ws| {
      forall w | w in ws
        ensures CompareAt(image, w, name) == Differs
      {
        var i :| 0 <= i < |ws| && ws[i] == w;
      }
    } else {
      assert ws[j] in ws && CompareAt(image, ws[j], name) != Differs;
    }
  }

  // ---------- One file ----------

  /** A directory with one file `a`, and its image: two records and one listed id lie before the content. */
  const A: Name := [97]
  const CONTENT := 296

  function OneFile(content: seq<Byte>): Tree {
    Dir([], [File(A, content)])
  }

  lemma OneFileTree(content: seq<Byte>)
    requires CONTENT + |content| <= MAX_WORD
    ensures var f, t := File(A, content), OneFile(content);
      Good(t) && Preorder(t) == [t, f] && Ids(t.children, 1) == [1]
    ensures SizesOf(Preorder(OneFile(content))) == 8 + |content|
  {
    var f, t := File(A, content), OneFile(content);
    assert [f][1..] == [];
    assert PreorderAll([f]) == Preorder(f) + [];
    assert Preorder(f) == [f];
    assert [t, f][1..] == [f];
    assert SizesOf([f]) == |f.content|;
    assert WellNamed(f) && !Names([f][1..], f.name) && AllWellNamed([f][1..]);
    assert AllWellNamed([f]);
  }

  /** The image of the one file. */
  ghost predicate OneFileImage(image: seq<Byte>, content: seq<Byte>) {
    var t := OneFile(content);
    && Good(t) && NamesFit(Preorder(t)) && |Preorder(t)| == 2 && image == Image(t) && Readable(image, t)
    && |image| == CONTENT + |content| && image[CONTENT..] == content
  }

  lemma OneFileImageOf(content: seq<Byte>) returns (image: seq<Byte>)
    requires CONTENT + |content| <= MAX_WORD
    ensures var whole := OneFileImage(image, content); whole
  {
    var t := OneFile(content);
    OneFileTree(content);
    GoodFits(t);
    image := Image(t);
    ImageReadable(t);
    ImageSize(t);
    ContentAt(image, content);
  }

  lemma ContentAt(image: seq<Byte>, content: seq<Byte>)
    requires CONTENT + |content| <= MAX_WORD && |image| == CONTENT + |content|
    requires var readable := Readable(image, OneFile(content)); readable
    ensures image[CONTENT..] == content
  {
    OneFileTree(content);
    ReadableRecord(image, OneFile(content), 1);
    assert Preorder(OneFile(content))[..1] == [OneFile(content)];
  }

  lemma ReadableRecord(image: seq<Byte>, t: Tree, k: nat)
    requires Readable(image, t) && k < |Preorder(t)|
    ensures RecordIs(image, t, k)
  {
  }

  /** The path /a/name comes to `o` in the image, and to nothing in the tree. */
  ghost predicate ComesTo(content: seq<Byte>, name: Name, o: Outcome) {
    var t := OneFile(content);
    && Good(t) && NamesFit(Preorder(t)) && |Preorder(t)| == 2
    && Walk(Image(t), 0, [A, name]) == o && Answer(t, 0, [A, name]) == Missing
  }

  lemma BehindFile(image: seq<Byte>, content: seq<Byte>, name: Name)
    requires (var whole := OneFileImage(image, content); whole) && |image| >= HEADER_SIZE
    ensures Walk(image, 0, [A, name]) == Walk(image, 1, [name]) && Listed(image, 1) == Some(ReadWords(content))
    ensures Answer(OneFile(content), 0, [A, name]) == Missing
  {
    var t := OneFile(content);
    WholeSize(image, content);
    OneFileTree(content);
    assert [A, name][1..] == [name];
    DirStep(image, t, 0, A);
    WalkStep(image, 0, [A, name], [1], 0);
    NodeListed(image, t, 1);
    NothingBehind(content, name);
  }

  lemma WholeSize(image: seq<Byte>, content: seq<Byte>)
    requires OneFileImage(image, content)
    ensures CONTENT + |content| == |image| <= MAX_WORD && image[CONTENT..] == content
    ensures var readable := Readable(image, OneFile(content)); readable
  {
  }

  lemma NothingBehind(content: seq<Byte>, name: Name)
    requires CONTENT + |content| <= MAX_WORD
    ensures Answer(OneFile(content), 0, [A, name]) == Missing
  {
    var f, names := File(A, content), [A, name];
    OneFileTree(content);
    assert names[1..] == [name] && [f][0] == f;
    assert Resolve(f, 1, [name]) == None;
    assert ResolveAmong([f], 1, names) == None;
  }

  /** One name behind the file: what the scan of the words of the file for that name comes to. */
  lemma ScanDecides(image: seq<Byte>, content: seq<Byte>, name: Name, j: nat, o: Outcome)
    requires (var whole := OneFileImage(image, content); whole) && j == Scan(image, ReadWords(content), name)
    requires o == if j == |ReadWords(content)| then Missing
                  else if CompareAt(image, ReadWords(content)[j], name) == RunsOut then Outside
                  else Found(ReadWords(content)[j])
    ensures var comes := ComesTo(content, name, o); comes
  {
    WholeSize(image, content);
    BehindFile(image, content, name);
    WalkStep(image, 1, [name], ReadWords(content), j);
    assert [name][1..] == [];
  }

  /** A file `a` that holds its own id, or another word that addresses the same record, and then any word: the path
      /a/a is found although `a` has no children. */
  lemma FoundInsideFile(u: nat, v: nat)
    requires u <= MAX_WORD && v <= MAX_WORD && Slot(u) == 1
    ensures var comes := ComesTo(Words([u, v]), A, Found(u)); comes
  {
    var content := Words([u, v]);
    var image := OneFileImageOf(content);
    WholeSize(image, content);
    OneFileTree(content);
    ReadWordsBack([u, v]);
    SlotCompare(image, OneFile(content), u, A);
    assert Scan(image, [u, v], A) == 0;
    ScanDecides(image, content, A, 0, Found(u));
  }

  /** A file `a` that holds one word, whose record would have its name behind the end of the image: the path /a/a reads
      there. */
  lemma OutsideFromFile(v: nat)
    requires v <= MAX_WORD && FieldAt(v, NAME_FIELD) >= CONTENT + 8
    ensures var comes := ComesTo(Words([v]), A, Outside); comes
  {
    var content := Words([v]);
    var image := OneFileImageOf(content);
    WholeSize(image, content);
    ReadWordsBack([v]);
    assert CompareAt(image, v, A) == RunsOut;
    assert Scan(image, [v], A) == 0;
    ScanDecides(image, content, A, 0, Outside);
  }

  /** A record that has its name in the content. */
  lemma NameInContent(image: seq<Byte>, content: seq<Byte>, id: nat, n: nat, name: Name, c: Comparison)
    requires |image| == CONTENT + |content| && image[CONTENT..] == content
    requires n <= |content| && FieldAt(id, NAME_FIELD) == CONTENT + n && c == Compare(content[n..], name)
    ensures CompareAt(image, id, name) == c
  {
    assert image[CONTENT + n..] == content[n..];
  }

  lemma Record2And3()
    ensures FieldAt(2, NAME_FIELD) == CONTENT + 1 && FieldAt(3, NAME_FIELD) == CONTENT + 97
  {
  }

  /** A file `a` whose words are 2, which numbers no node, and 0, and whose second byte is 0: record 2 lies in the
      content, with an empty name, and the reader finds nothing under any other, as it should. */
  lemma StrayAgrees(content: seq<Byte>, name: Name)
    requires 2 <= |content| <= MAX_WORD - CONTENT && content[1] == 0 && name != [] && name != [SLASH]
    requires forall w | w in ReadWords(content) :: w == 2 || w == 0
    ensures var comes := ComesTo(content, name, Missing); comes
  {
    var image := OneFileImageOf(content);
    NoneStops(image, content, name);
    ScanDecides(image, content, name, |ReadWords(content)|, Missing);
  }

  lemma NoneStops(image: seq<Byte>, content: seq<Byte>, name: Name)
    requires (var whole := OneFileImage(image, content); whole) && 2 <= |content| && content[1] == 0
    requires name != [] && name != [SLASH] && forall w | w in ReadWords(content) :: w == 2 || w == 0
    ensures Scan(image, ReadWords(content), name) == |ReadWords(content)|
  {
    WholeSize(image, content);
    Record2And3();
    NulFirst(content[1..], name);
    NameInContent(image, content, 2, 1, name, Differs);
    RootName(image, content, name);
    AllDiffer(image, ReadWords(content), name);
  }

  lemma NulFirst(s: seq<Byte>, name: Name)
    requires s != [] && s[0] == 0 && name != []
    ensures Compare(s, name) == Differs
  {
  }

  lemma RootName(image: seq<Byte>, content: seq<Byte>, name: Name)
    requires CONTENT + |content| <= MAX_WORD && name != [SLASH]
    requires var readable := Readable(image, OneFile(content)); readable
    ensures CompareAt(image, 0, name) == Differs
  {
    OneFileTree(content);
    SlotCompare(image, OneFile(content), 0, name);
  }

  lemma AllDiffer(image: seq<Byte>, ws: seq<nat>, name: Name)
    requires forall w | w in ws :: CompareAt(image, w, name) == Differs
    ensures Scan(image, ws, name) == |ws|
  {
  }

  /** A file `a` whose first word is 3, which numbers no node, and which has a name where record 3 would have it: the
      path with this name behind the file is found, and the id is no node's. */
  lemma StrayFound(content: seq<Byte>, name: Name)
    requires 98 + |name| <= |content| <= MAX_WORD - CONTENT && 0 !in name
    requires content[..8] == Word(3) && content[97..97 + |name|] == name && content[97 + |name|] == 0
    ensures var comes := ComesTo(content, name, Found(3)); comes
  {
    var image := OneFileImageOf(content);
    FirstStops(image, content, name);
    ScanDecides(image, content, name, 0, Found(3));
  }

  lemma FirstStops(image: seq<Byte>, content: seq<Byte>, name: Name)
    requires (var whole := OneFileImage(image, content); whole) && 98 + |name| <= |content| && 0 !in name
    requires content[..8] == Word(3) && content[97..97 + |name|] == name && content[97 + |name|] == 0
    ensures |ReadWords(content)| > 0 && ReadWords(content)[0] == 3
    ensures CompareAt(image, 3, name) == Same && Scan(image, ReadWords(content), name) == 0
  {
    WholeSize(image, content);
    Record2And3();
    StandsThere(content, 97, name);
    NameInContent(image, content, 3, 97, name, Same);
    FirstWord(content, 3);
  }

  lemma StandsThere(content: seq<Byte>, n: nat, name: Name)
    requires n + |name| < |content| && content[n..n + |name|] == name && content[n + |name|] == 0 && 0 !in name
    ensures Compare(content[n..], name) == Same
  {
    CompareIff(content[n..], name);
    assert content[n..][..|name|] == name;
  }

  lemma FirstWord(content: seq<Byte>, v: nat)
    requires v <= MAX_WORD && |content| >= 8 && content[..8] == Word(v)
    ensures |ReadWords(content)| > 0 && ReadWords(content)[0] == v
  {
    WordRoundTrip(v);
  }
}
