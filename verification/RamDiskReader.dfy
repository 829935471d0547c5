/** The reader of the image, src/fs/rdfs/rdfs.c.  Its methods read the bytes that `rdfs_start` points to, whatever they
    are; what that comes to for the image of a tree is in RamDiskPaths and RamDiskStrays. */
module RamDiskReader {
  import opened LittleEndian
  import opened Wrappers
  import opened RamDiskTrees
  import opened RamDiskImage
  import opened RamDiskRecords
  import opened RamDiskPaths

  const RDFS_MAGIC_NUMBER := 0x7DF5
  const RDFS_FILE_TYPE_DIR := 1

  /** A `file_t`. */
  class FileT {
    var file_id: nat
    var index: nat
    var flags: nat

    constructor ()
      ensures file_id == 0 && index == 0 && flags == 0
    {
      file_id, index, flags := 0, 0, 0;
    }
  }

  // ---------- What the methods return ----------

  /** How `rdfs_file_get_id_from_path` reports an outcome. */
  predicate Returns(o: Outcome, r: int, id: nat, outside: bool) {
    match o
    case Found(k) => r == 0 && id == k && !outside
    case Missing => r == -1 && !outside
    case Outside => outside
  }

  /** What the scan of a list for a name returns. */
  predicate ScanReturns(image: seq<Byte>, ids: seq<nat>, name: Name, r: int, id: nat, outside: bool) {
    var j := Scan(image, ids, name);
    if j == |ids| then r == -1 && !outside
    else if CompareAt(image, ids[j], name) == RunsOut then outside
    else r == 0 && id == ids[j] && !outside
  }

  /** What one step of the walk returns. */
  predicate StepReturns(image: seq<Byte>, id: nat, name: Name, r: int, file_id: nat, outside: bool)
    requires |image| >= HEADER_SIZE
  {
    match Listed(image, id)
    case None => outside
    case Some(ids) => ScanReturns(image, ids, name, r, file_id, outside)
  }

  /** What a read of `size` returns, and what the buffer holds then: the bytes that are copied, and behind them what was
      there. */
  predicate ReadReturns(bytes: Option<seq<Byte>>, size: nat, was: seq<Byte>, now: seq<Byte>, n: nat, outside: bool) {
    match bytes
    case None => outside
    case Some(b) => !outside && n == (if size == 0 then 0 else |b|) && |b| <= |was| && now == b + was[|b|..]
  }

  /** Whether a record says that it is a directory's; `None` if its type byte is not in the image. */
  function IsDirAt(image: seq<Byte>, id: nat): Option<bool> {
    var at := FieldAt(id, TYPE_FIELD);
    if at >= |image| then None else Some(image[at] == 1)
  }

  /** At a node's id that is whether the node is a directory. */
  lemma NodeIsDir(image: seq<Byte>, t: Tree, k: nat)
    requires Readable(image, t) && k < |Preorder(t)|
    ensures IsDirAt(image, k) == Some(Preorder(t)[k].Dir?)
  {
    assert RecordIs(image, t, k);
    TypeFrom(image, k, HEADER_SIZE + FILE_DIRECTORY_SIZE * k, Preorder(t)[k], SizesOf(Preorder(t)[..k]));
  }

  lemma TypeFrom(image: seq<Byte>, id: nat, at: nat, u: Tree, offset: nat)
    requires at == HEADER_SIZE + FILE_DIRECTORY_SIZE * id && |image| <= MAX_WORD
    requires FieldsAre(image, at, u, id, offset)
    ensures IsDirAt(image, id) == Some(u.Dir?)
  {
    RecordField(id, TYPE_FIELD, |image|);
  }

  /** What `rdfs_readdir` returns for an id: a list for a directory, and null for any other. */
  predicate DirReturns(image: seq<Byte>, id: nat, file_list: Option<seq<nat>>, outside: bool)
    requires |image| >= HEADER_SIZE
  {
    match IsDirAt(image, id)
    case None => outside
    case Some(isDir) =>
      if !isDir then file_list == None && !outside
      else if Listed(image, id) == None then outside
      else file_list == Listed(image, id) && !outside
  }

  /** What resolving a path comes to. */
  function Resolved(image: seq<Byte>, path: seq<Byte>): Outcome
    requires |image| >= HEADER_SIZE && CPath(path)
  {
    Walk(image, 0, ComponentsOf(path))
  }

  /** How many bytes `memcpy` copies: its loop over words runs once even for none. */
  function Copied(size: nat): (n: nat)
    ensures n >= size && n > 0
  {
    if size == 0 then 8 else size
  }

  /** The bytes that a read of at most `size` copies; `None` if it reads behind the image. */
  function ReadOf(image: seq<Byte>, id: nat, index: nat, size: nat): (bytes: Option<seq<Byte>>)
    requires |image| >= HEADER_SIZE
    ensures bytes.Some? ==> |bytes.value| <= Copied(size)
  {
    var offset_at, size_at := FieldAt(id, OFFSET_FIELD), FieldAt(id, SIZE_FIELD);
    if offset_at + 8 > |image| || size_at + 8 > |image| then None
    else
      var remaining := (Read64(image, size_at) - index) % ADDRESSES;
      var n := if size > remaining then remaining else size;
      var src := (Read64(image, 80) + Read64(image, offset_at) + HEADER_SIZE + index) % ADDRESSES;
      if remaining == 0 then Some([])
      else if src + Copied(n) > |image| then None
      else Some(image[src..src + Copied(n)])
  }

  /** How much one read of a file returns. */
  function ReadSize(d: seq<Byte>, index: nat, size: nat): (n: nat)
    requires index <= |d|
    ensures n <= size && index + n <= |d| && (n == size || index + n == |d|)
  {
    if size > |d| - index then |d| - index else size
  }

  /** A read at a node's id copies as many of the next bytes of its data as asked for and left; a read of none copies
      8 bytes, if there is anything left. */
  lemma NodeRead(image: seq<Byte>, t: Tree, k: nat, d: seq<Byte>, index: nat, size: nat)
    requires (var readable := Readable(image, t); readable) && k < |Preorder(t)|
    requires d == DataOf(Preorder(t)[k], k) && index <= |d|
    ensures |image| >= HEADER_SIZE
    ensures size > 0 || index == |d| ==>
      ReadOf(image, k, index, size) == Some(d[index..index + ReadSize(d, index, size)])
    ensures index + 8 <= |d| ==> ReadOf(image, k, index, 0) == Some(d[index..index + 8])
  {
    NodeData(image, t, k);
    ExtentRead(image, k, d, index, size);
  }

  lemma ExtentRead(image: seq<Byte>, id: nat, d: seq<Byte>, index: nat, size: nat)
    requires (var data := DataIs(image, id, d); data) && index <= |d|
    ensures |image| >= HEADER_SIZE
    ensures size > 0 || index == |d| ==>
      ReadOf(image, id, index, size) == Some(d[index..index + ReadSize(d, index, size)])
    ensures index + 8 <= |d| ==> ReadOf(image, id, index, 0) == Some(d[index..index + 8])
  {
    DataFields(image, id, d);
    var location := Read64(image, 80) + Read64(image, FieldAt(id, OFFSET_FIELD)) + HEADER_SIZE;
    ExtentSlice(image, location, d, index, ReadSize(d, index, size));
    if index + 8 <= |d| {
      ExtentSlice(image, location, d, index, 8);
    }
  }

  lemma DataFields(image: seq<Byte>, id: nat, d: seq<Byte>)
    requires DataIs(image, id, d)
    ensures HEADER_SIZE <= |image| <= MAX_WORD
    ensures FieldAt(id, OFFSET_FIELD) + 8 <= |image| && FieldAt(id, SIZE_FIELD) + 8 <= |image|
    ensures Read64(image, FieldAt(id, SIZE_FIELD)) == |d|
    ensures var location := Read64(image, 80) + Read64(image, FieldAt(id, OFFSET_FIELD)) + HEADER_SIZE;
      var extent := ExtentIs(image, location, d); extent
  {
  }

  lemma ExtentSlice(image: seq<Byte>, location: nat, d: seq<Byte>, index: nat, n: nat)
    requires ExtentIs(image, location, d) && |image| <= MAX_WORD && index + n <= |d|
    ensures (|d| - index) % ADDRESSES == |d| - index && (location + index) % ADDRESSES == location + index
    ensures location + index + n <= |image| && image[location + index..location + index + n] == d[index..index + n]
  {
    Within(image, location, d, index, index + n, location + index, location + index + n);
  }

  class RamDisk {
    /** The bytes that `rdfs_start` points to. */
    var image: seq<Byte>
    var numFiles: nat

    /** There is a header, and the bytes lie in memory at an address other than 0. */
    predicate Valid()
      reads this
    {
      HEADER_SIZE <= |image| <= MAX_WORD
    }

    constructor ()
      ensures image == [] && numFiles == 0
    {
      image, numFiles := [], 0;
    }

    /** `rdfs_init`; `None` is the null pointer. */
    method Init(initial_offset: Option<seq<Byte>>, ghost t: Tree) returns (r: int)
      requires initial_offset.Some? ==> HEADER_SIZE <= |initial_offset.value| <= MAX_WORD
      modifies this
      ensures r == 0 || r == -1
      ensures r == 0 <==> initial_offset.Some? && FromBytes(initial_offset.value[0..2]) == RDFS_MAGIC_NUMBER
      ensures initial_offset == None ==> image == old(image) && numFiles == old(numFiles)
      ensures initial_offset.Some? ==> image == initial_offset.value && Valid()
      ensures initial_offset.Some? && Readable(initial_offset.value, t) ==> r == 0 && numFiles == |Preorder(t)|
    {
      match initial_offset
      case None => return -1;
      case Some(bytes) =>
        image := bytes;
        Magic(bytes);
        if FromBytes(bytes[0..2]) != RDFS_MAGIC_NUMBER {
          return -1;
        }
        numFiles := Read64(bytes, 80) / FILE_DIRECTORY_SIZE;
        return 0;
    }

    /** `rdfs_get_file_list_from_dir_id`. */
    method FileListFromDirId(curr_dir_id: nat) returns (file_list: array<nat>, outside: bool)
      requires Valid()
      ensures fresh(file_list)
      ensures Listed(image, curr_dir_id) == if outside then None else Some(file_list[..])
    {
      var offset_at, size_at := FieldAt(curr_dir_id, OFFSET_FIELD), FieldAt(curr_dir_id, SIZE_FIELD);
      if offset_at + 8 > |image| || size_at + 8 > |image| {
        file_list := new nat[0];
        return file_list, true;
      }
      var file_ids := Read64(image, 80) + Read64(image, offset_at) + HEADER_SIZE;
      file_list, outside := CopyList(image, file_ids, Read64(image, size_at) / 8);
    }

    /** `rdfs_get_file_id_from_list_and_name`. */
    method FileIdFromListAndName(file_list: array<nat>, filename: Name) returns (r: int, file_id: nat, outside: bool)
      requires 0 !in filename
      ensures ScanReturns(image, file_list[..], filename, r, file_id, outside)
    {
      r, file_id, outside := FindInList(image, file_list[..], filename);
    }

    /** The two calls in the loop of `rdfs_file_get_id_from_path`. */
    method FindChild(current_dir_id: nat, next_filename: Name) returns (found: int, file_id: nat, outside: bool)
      requires Valid() && 0 !in next_filename
      ensures StepReturns(image, current_dir_id, next_filename, found, file_id, outside)
    {
      var file_id_list, out := FileListFromDirId(current_dir_id);
      if out {
        return 0, 0, true;
      }
      found, file_id, outside := FileIdFromListAndName(file_id_list, next_filename);
    }

    /** `rdfs_file_get_id_from_path`: the walk along the components of the path. */
    method FileGetIdFromPath(path: seq<Byte>) returns (r: int, id: nat, outside: bool)
      requires Valid() && CPath(path) && Short(ComponentsOf(path))
      ensures Returns(Resolved(image, path), r, id, outside)
    {
      var current_dir_id: nat, path_to_parse: nat := 0, 1;
      while path[path_to_parse] != 0
        invariant 1 <= path_to_parse < |path| && Short(RestOf(path, path_to_parse))
        invariant Resolved(image, path) == Walk(image, current_dir_id, RestOf(path, path_to_parse))
        decreases |path| - path_to_parse
      {
        var next_filename, next := NextComponent(path, path_to_parse);
        var found, file_id, out := FindChild(current_dir_id, next_filename);
        ghost var names, rest := RestOf(path, path_to_parse), RestOf(path, next);
        StepsOn(image, current_dir_id, names, next_filename, rest, found, file_id, out);
        path_to_parse := next;
        if out {
          return 0, 0, true;
        }
        if found < 0 {
          return -1, 0, false;
        }
        current_dir_id := file_id;
      }
      r, id, outside := 0, current_dir_id, false;
    }

    /** `rdfs_open_file`. */
    method OpenFile(path: seq<Byte>, flags: nat, file: FileT?) returns (r: int, outside: bool)
      requires Valid() && CPath(path) && Short(ComponentsOf(path))
      modifies file
      ensures outside <==> file != null && Resolved(image, path) == Outside
      ensures !outside && (file == null || Resolved(image, path) == Missing) ==> r == -1
      ensures file != null && Resolved(image, path).Found? ==>
        r == 0 && file.file_id == Resolved(image, path).id && file.index == 0 && file.flags == flags
      ensures file != null && !Resolved(image, path).Found? ==> unchanged(file)
    {
      if file == null {
        return -1, false;
      }
      var found, id;
      found, id, outside := FileGetIdFromPath(path);
      if outside || found < 0 {
        return -1, outside;
      }
      file.file_id, file.index, file.flags := id, 0, flags;
      r := 0;
    }

    /** `rdfs_id_isDir`. */
    method IdIsDir(id: nat) returns (isDir: bool, outside: bool)
      ensures IsDirAt(image, id) == if outside then None else Some(isDir)
    {
      var file := FieldAt(id, TYPE_FIELD);
      if file >= |image| {
        return false, true;
      }
      return image[file] == RDFS_FILE_TYPE_DIR, false;
    }

    /** `rdfs_readdir`; `None` is the null pointer. */
    method Readdir(path: seq<Byte>) returns (file_list: Option<seq<nat>>, outside: bool)
      requires Valid() && CPath(path) && Short(ComponentsOf(path))
      ensures match Resolved(image, path)
        case Found(id) => DirReturns(image, id, file_list, outside)
        case Missing => file_list == None && !outside
        case Outside => outside
    {
      var found, fileId;
      found, fileId, outside := FileGetIdFromPath(path);
      if outside || found < 0 {
        return None, outside;
      }
      var isDir;
      isDir, outside := IdIsDir(fileId);
      if outside || !isDir {
        return None, outside;
      }
      var ids;
      ids, outside := FileListFromDirId(fileId);
      file_list := if outside then None else Some(ids[..]);
    }

    /** `rdfs_read_file`: at most `size` bytes from where the last read ended. */
    method ReadFile(file: FileT, buf: array<Byte>, size: nat) returns (n: nat, outside: bool)
      requires Valid() && file.index <= MAX_WORD && Copied(size) <= buf.Length
      modifies file`index, buf
      ensures ReadReturns(ReadOf(image, file.file_id, old(file.index), size), size, old(buf[..]), buf[..], n, outside)
      ensures !outside ==> file.index == (old(file.index) + n) % ADDRESSES
    {
      n, outside := ReadAt(image, file.file_id, file.index, buf, size);
      if !outside {
        file.index := (file.index + n) % ADDRESSES;
      }
    }
  }

  lemma StepsOn(image: seq<Byte>, id: nat, names: seq<Name>, name: Name, rest: seq<Name>, r: int, file_id: nat,
          outside: bool)
    requires |image| >= HEADER_SIZE && names == [name] + rest && StepReturns(image, id, name, r, file_id, outside)
    ensures Walk(image, id, names) == if outside then Outside else if r < 0 then Missing else Walk(image, file_id, rest)
  {
    assert names[1..] == rest;
    if Listed(image, id).Some? {
      var ids := Listed(image, id).value;
      WalkStep(image, id, names, ids, Scan(image, ids, name));
    }
  }

  lemma Magic(bytes: seq<Byte>)
    requires |bytes| >= 2
    ensures FromBytes(bytes[0..2]) == bytes[0] as int + 256 * (bytes[1] as int)
  {
    assert bytes[0..2][1..] == [bytes[1]] && [bytes[1]][1..] == [];
    assert FromBytes([bytes[1]]) == bytes[1] as int;
  }

  // ---------- Lists and names ----------

  /** These words have been copied, and the rest is as it was to be. */
  ghost predicate CopiedSoFar(image: seq<Byte>, file_ids: nat, list_size: nat, before: seq<nat>) {
    |before| <= list_size &&
    var rest := WordsAt(image, file_ids + 8 * |before|, list_size - |before|);
    WordsAt(image, file_ids, list_size) == if rest.Some? then Some(before + rest.value) else None
  }

  /** The loop that copies the listed ids. */
  method CopyList(image: seq<Byte>, file_ids: nat, list_size: nat) returns (file_list: array<nat>, outside: bool)
    ensures fresh(file_list)
    ensures WordsAt(image, file_ids, list_size) == if outside then None else Some(file_list[..])
  {
    file_list := new nat[list_size](_ => 0);
    assert file_list[..0] == [];
    NoneCopied(image, file_ids, list_size);
    for i := 0 to list_size
      invariant var copied := CopiedSoFar(image, file_ids, list_size, file_list[..i]); copied
    {
      var at := (file_ids + 8 * i) % ADDRESSES;
      OneMore(image, file_ids, list_size, file_list[..i]);
      if at + 8 > |image| {
        return file_list, true;
      }
      ghost var before := file_list[..i];
      file_list[i] := Read64(image, at);
      assert file_list[..i + 1] == before + [Read64(image, at)];
    }
    AllCopied(image, file_ids, list_size, file_list[..list_size]);
    assert file_list[..list_size] == file_list[..];
    outside := false;
  }

  lemma NoneCopied(image: seq<Byte>, file_ids: nat, list_size: nat)
    ensures var copied := CopiedSoFar(image, file_ids, list_size, []); copied
  {
    var ws := WordsAt(image, file_ids, list_size);
    assert ws.Some? ==> [] + ws.value == ws.value;
  }

  lemma OneMore(image: seq<Byte>, file_ids: nat, list_size: nat, before: seq<nat>)
    requires CopiedSoFar(image, file_ids, list_size, before) && |before| < list_size
    ensures var at := (file_ids + 8 * |before|) % ADDRESSES;
      if at + 8 > |image| then WordsAt(image, file_ids, list_size) == None
      else var copied := CopiedSoFar(image, file_ids, list_size, before + [Read64(image, at)]); copied
  {
    var at := (file_ids + 8 * |before|) % ADDRESSES;
    var rest := WordsAt(image, file_ids + 8 * |before| + 8, list_size - |before| - 1);
    if at + 8 <= |image| && rest.Some? {
      var w := Read64(image, at);
      assert before + ([w] + rest.value) == before + [w] + rest.value;
    }
  }

  lemma AllCopied(image: seq<Byte>, file_ids: nat, list_size: nat, all: seq<nat>)
    requires CopiedSoFar(image, file_ids, list_size, all) && |all| == list_size
    ensures WordsAt(image, file_ids, list_size) == Some(all)
  {
    assert all + [] == all;
  }

  /** `strcmp`: up to the first NUL in either string, or the first difference. */
  method Strcmp(image: seq<Byte>, a: nat, b: Name) returns (c: Comparison)
    requires 0 !in b && a <= |image|
    ensures c == Compare(image[a..], b)
  {
    var i: nat := 0;
    while a + i < |image|
      invariant a + i <= |image| && i <= |b|
      invariant Compare(image[a..], b) == Compare(image[a + i..], b[i..])
    {
      var w3, w4 := image[a + i], if i < |b| then b[i] else 0;
      CompareNext(image, a + i, b, i);
      if w3 == 0 || w4 == 0 {
        return if w3 == w4 then Same else Differs;
      }
      if w3 != w4 {
        return Differs;
      }
      i := i + 1;
    }
    c := RunsOut;
  }

  lemma CompareNext(image: seq<Byte>, at: nat, b: Name, i: nat)
    requires 0 !in b && at < |image| && i <= |b|
    ensures Compare(image[at..], b[i..]) ==
      if i == |b| then if image[at] == 0 then Same else Differs
      else if image[at] == 0 || image[at] != b[i] then Differs
      else Compare(image[at + 1..], b[i + 1..])
    ensures i < |b| ==> b[i] != 0
  {
    if i < |b| {
      assert b[i] in b;
    }
  }

  /** The comparison with `first_file[id].filename`. */
  method CompareName(image: seq<Byte>, id: nat, filename: Name) returns (c: Comparison)
    requires 0 !in filename
    ensures c == CompareAt(image, id, filename)
  {
    var at := FieldAt(id, NAME_FIELD);
    if at > |image| {
      return RunsOut;
    }
    c := Strcmp(image, at, filename);
  }

  method FindInList(image: seq<Byte>, file_list: seq<nat>, filename: Name) returns (r: int, file_id: nat, outside: bool)
    requires 0 !in filename
    ensures ScanReturns(image, file_list, filename, r, file_id, outside)
  {
    for i := 0 to |file_list|
      invariant forall j | 0 <= j < i :: CompareAt(image, file_list[j], filename) == Differs
    {
      var c := CompareName(image, file_list[i], filename);
      if c != Differs {
        ScanAt(image, file_list, filename, i);
        return 0, file_list[i], c == RunsOut;
      }
    }
    ScanAt(image, file_list, filename, |file_list|);
    return -1, 0, false;
  }

  lemma ScanAt(image: seq<Byte>, ids: seq<nat>, name: Name, i: nat)
    requires i <= |ids| && (i < |ids| ==> CompareAt(image, ids[i], name) != Differs)
    requires forall j | 0 <= j < i :: CompareAt(image, ids[j], name) == Differs
    ensures Scan(image, ids, name) == i
  {
  }

  // ---------- Reading ----------

  /** The bytes that one read copies. */
  method ReadAt(image: seq<Byte>, file_id: nat, index: nat, buf: array<Byte>, size: nat) returns (n: nat, outside: bool)
    requires HEADER_SIZE <= |image| && Copied(size) <= buf.Length
    modifies buf
    ensures ReadReturns(ReadOf(image, file_id, index, size), size, old(buf[..]), buf[..], n, outside)
  {
    var offset_at, size_at := FieldAt(file_id, OFFSET_FIELD), FieldAt(file_id, SIZE_FIELD);
    if offset_at + 8 > |image| || size_at + 8 > |image| {
      return 0, true;
    }
    var data_ptr := Read64(image, 80) + Read64(image, offset_at) + HEADER_SIZE;
    var total_remaining := (Read64(image, size_at) - index) % ADDRESSES;
    if total_remaining == 0 {
      return 0, false;
    }
    n := size;
    if n > total_remaining {
      n := total_remaining;
    }
    var src := (data_ptr + index) % ADDRESSES;
    if src + Copied(n) > |image| {
      return 0, true;
    }
    Memcpy(buf, image, src, n);
    outside := false;
  }

  /** `memcpy` from the image into a buffer. */
  method Memcpy(buf: array<Byte>, image: seq<Byte>, src: nat, size: nat)
    requires Copied(size) <= buf.Length && src + Copied(size) <= |image|
    modifies buf
    ensures buf[..] == image[src..src + Copied(size)] + old(buf[Copied(size)..])
  {
    for i := 0 to Copied(size)
      invariant forall k | 0 <= k < i :: buf[k] == image[src + k]
      invariant forall k | i <= k < buf.Length :: buf[k] == old(buf[k])
    {
      buf[i] := image[src + i];
    }
  }

  // ---------- Paths ----------

  /** A C string of at least one character, with its NUL. */
  predicate CPath(path: seq<Byte>) {
    |path| >= 2 && path[|path| - 1] == 0 && forall i | 0 <= i < |path| - 1 :: path[i] != 0
  }

  /** The scan for the end of a component, with its 16-bit counter. */
  method ScanComponent(path: seq<Byte>, path_to_parse: nat) returns (i: nat)
    requires CPath(path) && path_to_parse < |path| - 1
    requires FirstSlash(path[path_to_parse..|path| - 1]) < 0x1_0000
    ensures i == FirstSlash(path[path_to_parse..|path| - 1])
  {
    i := 0;
    ghost var rest := path[path_to_parse..|path| - 1];
    ghost var end := FirstSlash(rest);
    while path[path_to_parse + i] != SLASH && path[path_to_parse + i] != 0
      invariant i <= end
      decreases end - i
    {
      assert rest[i] == path[path_to_parse + i];
      i := (i + 1) % 0x1_0000;
    }
    if i < |rest| {
      assert rest[i] == path[path_to_parse + i];
    }
  }

  /** The next file name, and where the one after it starts. */
  method NextComponent(path: seq<Byte>, path_to_parse: nat) returns (next_filename: Name, next: nat)
    requires CPath(path) && 1 <= path_to_parse < |path| - 1 && Short(RestOf(path, path_to_parse))
    ensures path_to_parse < next < |path| && RestOf(path, path_to_parse) == [next_filename] + RestOf(path, next)
    ensures Short(RestOf(path, next)) && 0 !in next_filename
  {
    ghost var rest := path[path_to_parse..|path| - 1];
    assert RestOf(path, path_to_parse)[0] == rest[..FirstSlash(rest)];
    var i := ScanComponent(path, path_to_parse);
    next_filename := path[path_to_parse..path_to_parse + i];
    if path[path_to_parse + i] == SLASH {
      next := path_to_parse + i + 1;
    } else {
      next := path_to_parse + i;
    }
    SplitStep(path, path_to_parse, i, next);
    ShortStep(next_filename, RestOf(path, next));
  }

  function RestOf(path: seq<Byte>, at: nat): seq<Name>
    requires 1 <= at < |path|
  {
    Split(path[at..|path| - 1])
  }

  lemma SplitStep(path: seq<Byte>, at: nat, i: nat, next: nat)
    requires CPath(path) && 1 <= at < |path| - 1 && i == FirstSlash(path[at..|path| - 1])
    requires next == if path[at + i] == SLASH then at + i + 1 else at + i
    ensures at < next < |path| && RestOf(path, at) == [path[at..at + i]] + RestOf(path, next)
  {
    var rest := path[at..|path| - 1];
    assert rest[..i] == path[at..at + i];
    if i < |rest| {
      assert path[at + i] == rest[i];
      assert rest[i + 1..] == path[next..|path| - 1];
    } else {
      assert path[next..|path| - 1] == [];
    }
  }

  predicate Short(names: seq<Name>) {
    forall i | 0 <= i < |names| :: |names[i]| < 0x1_0000
  }

  lemma ShortStep(name: Name, rest: seq<Name>)
    requires Short([name] + rest)
    ensures |name| < 0x1_0000 && Short(rest)
  {
    assert ([name] + rest)[0] == name;
    forall i | 0 <= i < |rest|
      ensures |rest[i]| < 0x1_0000
    {
      assert ([name] + rest)[i + 1] == rest[i];
    }
  }

  /** A component of 65536 characters or more: the 16-bit counter comes round, and the scan for its end never stops. */
  lemma LongComponent(path: seq<Byte>, at: nat, rounds: nat)
    requires CPath(path) && at < |path| - 1 && FirstSlash(path[at..|path| - 1]) >= 0x1_0000
    ensures var i := rounds % 0x1_0000; path[at + i] != SLASH && path[at + i] != 0
  {
    var i := rounds % 0x1_0000;
    assert path[at..|path| - 1][i] == path[at + i];
  }
}
