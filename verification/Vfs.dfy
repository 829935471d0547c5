/** Reading through a descriptor, src/fs/read.c. */
module Vfs {
  import opened LittleEndian
  import opened Wrappers
  import opened RamDiskTrees
  import opened RamDiskImage
  import opened RamDiskRecords
  import opened RamDiskReader
  import opened RamDiskRoundTrip
  import opened FdTables

  /** The id that stands for /dev/timer.  It hides a node of that number. */
  const TIMER_ID := 255
  const SIZEOF_TIMER_VAL := 4

  /** The open record that a descriptor stands for. */
  function RecordOf(table: Table, fd: int): Option<FdTables.File> {
    if 0 <= fd < FD_COUNT then table[fd] else None
  }

  /** How many bytes a read may store. */
  function BytesStored(f: FdTables.File, size: nat): nat {
    if f.file_id == TIMER_ID then SIZEOF_TIMER_VAL else Copied(size)
  }

  /** The bytes that one read of `size` returns. */
  function Piece(d: seq<Byte>, index: nat, size: nat): seq<Byte>
    requires index <= |d|
  {
    d[index..index + ReadSize(d, index, size)]
  }

  /** `vfs_read`: `rdfs_read_file` on a copy of the record.  The index that advances is the copy's, so the table stays
      as it was, and the next read through the descriptor starts where this one did. */
  method VfsRead(fds: FdTable, disk: RamDisk, fd: int, buf: array<Byte>, size: nat, timer_val: nat)
    returns (r: int, outside: bool)
    requires fds.Valid() && fd < FILE_DESC_TABLE_INIT_SIZE && fds.bitmap as object != buf && fds.file as object != buf
    requires disk.Valid() && timer_val < 0x1_0000_0000
    requires var f := RecordOf(fds.table, fd);
      f.Some? ==> f.value.index <= MAX_WORD && buf.Length >= BytesStored(f.value, size)
    modifies buf
    ensures RecordOf(fds.table, fd) == None ==> r == -1 && !outside && buf[..] == old(buf[..])
    ensures var f := RecordOf(fds.table, fd);
      f.Some? && f.value.file_id == 255 ==>
        !outside && r == 4 && FromBytes(buf[..r]) == timer_val && buf[r..] == old(buf[r..])
    ensures var f := RecordOf(fds.table, fd);
      f.Some? && f.value.file_id != 255 ==>
        var bytes := ReadOf(disk.image, f.value.file_id, f.value.index, size);
        r >= 0 && ReadReturns(bytes, size, old(buf[..]), buf[..], r, outside)
    ensures fds.Valid() && fds.table == old(fds.table)
  {
    var found, entry := fds.GetFileFromFd(fd);
    if found < 0 {
      return -1, false;
    }
    if entry.file_id == TIMER_ID {
      StoreTimer(buf, timer_val);
      return SIZEOF_TIMER_VAL, false;
    }
    var file := new FileT();
    file.file_id, file.index, file.flags := entry.file_id, entry.index, entry.flags;
    var n;
    n, outside := disk.ReadFile(file, buf, size);
    r := n;
  }

  method StoreTimer(buf: array<Byte>, timer_val: nat)
    requires buf.Length >= SIZEOF_TIMER_VAL && timer_val < 0x1_0000_0000
    modifies buf
    ensures FromBytes(buf[..SIZEOF_TIMER_VAL]) == timer_val
    ensures buf[SIZEOF_TIMER_VAL..] == old(buf[SIZEOF_TIMER_VAL..])
  {
    TimerBytes(timer_val);
    var bytes := ToBytes(timer_val, SIZEOF_TIMER_VAL);
    Memcpy(buf, bytes, 0, SIZEOF_TIMER_VAL);
    assert buf[..SIZEOF_TIMER_VAL] == bytes;
  }

  lemma TimerBytes(v: nat)
    requires v < 0x1_0000_0000
    ensures FromBytes(ToBytes(v, SIZEOF_TIMER_VAL)) == v
  {
    assert Pow256(2) == 0x1_0000;
    LittleEndian.RoundTrip(v, SIZEOF_TIMER_VAL);
  }

  // ---------- A file read in pieces ----------

  /** A read of at least one byte through a descriptor of node `k` stores the piece that starts at its index. */
  lemma NodePiece(image: seq<Byte>, t: Tree, k: nat, index: nat, size: nat)
    requires (var readable := Readable(image, t); readable) && k < |Preorder(t)| && size > 0
    requires index <= |DataOf(Preorder(t)[k], k)|
    ensures |image| >= HEADER_SIZE
    ensures ReadOf(image, k, index, size) == Some(Piece(DataOf(Preorder(t)[k], k), index, size))
  {
    NodeRead(image, t, k, DataOf(Preorder(t)[k], k), index, size);
  }

  /** What reads of these sizes through one descriptor return, one after the other: each starts at the same index. */
  function Pieces(d: seq<Byte>, index: nat, sizes: seq<nat>): seq<Byte>
    requires index <= |d|
  {
    if sizes == [] then [] else Piece(d, index, sizes[0]) + Pieces(d, index, sizes[1..])
  }

  lemma {:induction false} PiecesOf(d: seq<Byte>, index: nat, sizes: seq<nat>, results: seq<seq<Byte>>)
    requires index <= |d| && |results| == |sizes|
    requires forall i | 0 <= i < |sizes| :: results[i] == Piece(d, index, sizes[i])
    ensures Concat(results) == Pieces(d, index, sizes)
  {
    if sizes != [] {
      PiecesOf(d, index, sizes[1..], results[1..]);
    }
  }

  /** From `at` on, every piece is there in full and is what stands at `index`. */
  predicate Repeats(d: seq<Byte>, index: nat, at: nat, sizes: seq<nat>)
    requires index <= at
    decreases |sizes|
  {
    sizes == [] ||
    (at + sizes[0] <= |d| && d[at..at + sizes[0]] == d[index..index + sizes[0]]
     && Repeats(d, index, at + sizes[0], sizes[1..]))
  }

  /** The pieces are what reads that advance would return from `at` on. */
  predicate ReadsOn(d: seq<Byte>, index: nat, at: nat, sizes: seq<nat>)
    requires index <= |d| && at <= |d|
  {
    Pieces(d, index, sizes) == ReadOut(d, at, sizes)
  }

  predicate AllPositive(sizes: seq<nat>) {
    forall i | 0 <= i < |sizes| :: sizes[i] > 0
  }

  /** All pieces but the first are there in full and repeat the start. */
  predicate RestRepeats(d: seq<Byte>, index: nat, sizes: seq<nat>)
    requires index <= |d| && sizes != []
  {
    Repeats(d, index, index + ReadSize(d, index, sizes[0]), sizes[1..])
  }

  /** Reading through the descriptor gives what is left of the file, as reads that advance do, exactly if nothing is
      left to read, or all pieces but the first repeat the start. */
  lemma PiecesIff(d: seq<Byte>, index: nat, sizes: seq<nat>)
    requires index <= |d| && sizes != [] && AllPositive(sizes)
    ensures ReadsOn(d, index, index, sizes) <==> index == |d| || RestRepeats(d, index, sizes)
  {
    var at, rest := index + ReadSize(d, index, sizes[0]), sizes[1..];
    FirstPiece(d, index, sizes, at, rest);
    if index < |d| {
      LaterPieces(d, index, at, rest);
    } else {
      NothingLeft(d, index, rest);
      assert ReadsOn(d, index, at, rest);
    }
  }

  lemma PiecesStep(d: seq<Byte>, index: nat, sizes: seq<nat>, a: seq<Byte>, b: seq<Byte>)
    requires index <= |d| && sizes != [] && a == Piece(d, index, sizes[0]) && b == Pieces(d, index, sizes[1..])
    ensures Pieces(d, index, sizes) == a + b
  {
  }

  lemma ReadOutStep(d: seq<Byte>, at: nat, sizes: seq<nat>, next: nat, a: seq<Byte>, b: seq<Byte>)
    requires at <= |d| && sizes != [] && next == at + ReadSize(d, at, sizes[0])
    requires a == d[at..next] && b == ReadOut(d, next, sizes[1..])
    ensures ReadOut(d, at, sizes) == a + b
  {
  }

  /** The first piece is the same in any case. */
  lemma FirstPiece(d: seq<Byte>, index: nat, sizes: seq<nat>, at: nat, rest: seq<nat>)
    requires index <= |d| && sizes != [] && at == index + ReadSize(d, index, sizes[0]) && rest == sizes[1..]
    ensures ReadsOn(d, index, index, sizes) <==> ReadsOn(d, index, at, rest)
  {
    var a, b, b' := d[index..at], Pieces(d, index, rest), ReadOut(d, at, rest);
    PiecesStep(d, index, sizes, a, b);
    ReadOutStep(d, index, sizes, at, a, b');
    SplitEqual(a, b, a, b');
  }

  lemma RepeatsStep(d: seq<Byte>, index: nat, at: nat, sizes: seq<nat>, s: nat, rest: seq<nat>)
    requires index <= at && sizes != [] && s == sizes[0] && rest == sizes[1..]
    ensures Repeats(d, index, at, sizes) <==>
      at + s <= |d| && d[at..at + s] == d[index..index + s] && Repeats(d, index, at + s, rest)
  {
  }

  lemma {:induction false} LaterPieces(d: seq<Byte>, index: nat, at: nat, sizes: seq<nat>)
    requires index < at <= |d| && AllPositive(sizes)
    ensures ReadsOn(d, index, at, sizes) <==> Repeats(d, index, at, sizes)
    decreases |sizes|
  {
    if sizes == [] {
      assert ReadsOn(d, index, at, []) && Repeats(d, index, at, []);
    } else {
      var s, rest := sizes[0], sizes[1..];
      if at + s <= |d| {
        LaterPieces(d, index, at + s, rest);
        WholePiece(d, index, at, sizes, s, rest);
      } else {
        CutPiece(d, index, at, sizes);
      }
    }
  }

  lemma WholePiece(d: seq<Byte>, index: nat, at: nat, sizes: seq<nat>, s: nat, rest: seq<nat>)
    requires index < at && sizes != [] && s == sizes[0] && rest == sizes[1..] && at + s <= |d|
    requires ReadsOn(d, index, at + s, rest) <==> Repeats(d, index, at + s, rest)
    ensures ReadsOn(d, index, at, sizes) <==> Repeats(d, index, at, sizes)
  {
    RepeatsStep(d, index, at, sizes, s, rest);
    PieceWhole(d, index, s);
    PieceWhole(d, at, s);
    var a, b, a', b' := d[index..index + s], Pieces(d, index, rest), d[at..at + s], ReadOut(d, at + s, rest);
    PiecesStep(d, index, sizes, a, b);
    ReadOutStep(d, at, sizes, at + s, a', b');
    SplitEqual(a, b, a', b');
  }

  lemma PieceWhole(d: seq<Byte>, index: nat, s: nat)
    requires index + s <= |d|
    ensures Piece(d, index, s) == d[index..index + s] && |Piece(d, index, s)| == s && ReadSize(d, index, s) == s
  {
  }

  lemma CutPiece(d: seq<Byte>, index: nat, at: nat, sizes: seq<nat>)
    requires index < at <= |d| && sizes != [] && at + sizes[0] > |d|
    ensures !ReadsOn(d, index, at, sizes)
  {
    ReadsArePrefix(d, at, sizes);
    assert |Pieces(d, index, sizes)| >= |Piece(d, index, sizes[0])| > |d| - at >= |ReadOut(d, at, sizes)|;
  }

  lemma SplitEqual<T>(a: seq<T>, b: seq<T>, a': seq<T>, b': seq<T>)
    requires |a| == |a'|
    ensures a + b == a' + b' <==> a == a' && b == b'
  {
    if a + b == a' + b' {
      assert a == (a + b)[..|a|] == (a' + b')[..|a|] == a';
      assert b == (a + b)[|a|..] == (a' + b')[|a|..] == b';
    }
  }

  lemma {:induction false} NothingLeft(d: seq<Byte>, index: nat, sizes: seq<nat>)
    requires index == |d|
    ensures Pieces(d, index, sizes) == [] == ReadOut(d, index, sizes)
    decreases |sizes|
  {
    if sizes != [] {
      NothingLeft(d, index, sizes[1..]);
    }
  }

  /** The file "ab", read one byte at a time: "aa". */
  lemma TwoBytes()
    ensures var d: seq<Byte> := [97, 98]; Pieces(d, 0, [1, 1]) == [97, 97] && ReadOut(d, 0, [1, 1]) == d
  {
    var d: seq<Byte> := [97, 98];
    assert [1, 1][1..] == [1] && [1][1..] == [];
    assert Pieces(d, 0, [1]) == [97] + Pieces(d, 0, []);
    assert ReadOut(d, 1, [1]) == [98] + ReadOut(d, 2, []);
  }
}
