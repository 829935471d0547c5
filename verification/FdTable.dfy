/** The file descriptors of a task, src/fs/fd.c: a bitmap and a table of records. */
module FdTables {
  import opened ByteBits
  import opened Wrappers

  const FILE_DESC_TABLE_INIT_SIZE := 127

  /** 127 / 8 bytes of bitmap: descriptors 0 to 119. */
  const BITMAP_SIZE := FILE_DESC_TABLE_INIT_SIZE / 8
  const FD_COUNT := 8 * BITMAP_SIZE

  /** A `file_t`. */
  datatype File = File(file_id: nat, index: nat, flags: nat)

  // ---------- What the table means ----------

  /** Open descriptors and their records. */
  type Table = t: seq<Option<File>> | |t| == FD_COUNT witness seq(FD_COUNT, _ => None)

  /** The least closed descriptor from `from` on, or the number of descriptors. */
  function LeastClosed(t: Table, from: nat): (fd: nat)
    requires from <= FD_COUNT
    ensures from <= fd <= FD_COUNT && (fd < FD_COUNT ==> t[fd] == None) && forall i | from <= i < fd :: t[i].Some?
    decreases FD_COUNT - from
  {
    if from == FD_COUNT || t[from] == None then from else LeastClosed(t, from + 1)
  }

  /** The least closed descriptor, or -1 exactly if all are open. */
  function Created(t: Table, file: File): (r: (int, Table))
    ensures r.0 == -1 <==> forall i | 0 <= i < FD_COUNT :: t[i].Some?
    ensures r.0 == -1 ==> r.1 == t
    ensures r.0 != -1 ==> 0 <= r.0 < FD_COUNT && t[r.0] == None && (forall i | 0 <= i < r.0 :: t[i].Some?)
    ensures r.0 != -1 ==> r.1 == t[r.0 := Some(file.(flags := 1))]
  {
    var fd := LeastClosed(t, 0);
    if fd == FD_COUNT then (-1, t) else (fd, t[fd := Some(file.(flags := 1))])
  }

  /** The descriptor is closed, and no other changes. */
  function Deleted(t: Table, fd: nat): (t': Table)
    requires fd < FD_COUNT
    ensures t'[fd] == None && forall k | 0 <= k < FD_COUNT && k != fd :: t'[k] == t[k]
  {
    t[fd := None]
  }

  // ---------- Bitmap and records ----------

  /** The bit of a descriptor is set exactly if its record has flags, and then the record is what was created. */
  predicate Agrees(bits: seq<bv8>, files: seq<File>, t: Table, fd: nat)
    requires |bits| == BITMAP_SIZE && |files| == FILE_DESC_TABLE_INIT_SIZE && fd < FD_COUNT
  {
    && (Bit(bits[fd / 8], fd % 8) <==> t[fd].Some?) && (files[fd].flags > 0 <==> t[fd].Some?)
    && (t[fd].Some? ==> files[fd] == t[fd].value)
  }

  predicate AllAgree(bits: seq<bv8>, files: seq<File>, t: Table) {
    && |bits| == BITMAP_SIZE && |files| == FILE_DESC_TABLE_INIT_SIZE
    && (forall fd | 0 <= fd < FD_COUNT :: Agrees(bits, files, t, fd))
    && SpareUnused(files)
  }

  /** The records without a bit are never opened. */
  predicate SpareUnused(files: seq<File>)
    requires |files| == FILE_DESC_TABLE_INIT_SIZE
  {
    forall fd | FD_COUNT <= fd < FILE_DESC_TABLE_INIT_SIZE :: files[fd].flags == 0
  }

  /** `sizeof(fd_table->file)` is the size of a pointer: of 127 records of 24 bytes, 127 * 8 bytes are zeroed, which
      are 42 records and the first field of the next.  `memzero_u8` stores words of four bytes one byte apart, so three
      more bytes are zeroed, the low ones of the index. */
  const ZEROED_RECORDS := FILE_DESC_TABLE_INIT_SIZE * 8 / 24

  /** The memory for the records, after `init_fd_table`. */
  function Initialised(given: seq<File>): (files: seq<File>)
    requires |given| == FILE_DESC_TABLE_INIT_SIZE
    ensures |files| == FILE_DESC_TABLE_INIT_SIZE
    ensures forall i | 0 <= i < FILE_DESC_TABLE_INIT_SIZE && i != 42 ::
      files[i] == if i < 42 then File(0, 0, 0) else given[i]
  {
    seq(FILE_DESC_TABLE_INIT_SIZE, i requires 0 <= i < FILE_DESC_TABLE_INIT_SIZE =>
      if i < ZEROED_RECORDS then File(0, 0, 0)
      else if i == ZEROED_RECORDS then File(0, given[i].index - given[i].index % 0x100_0000, given[i].flags)
      else given[i])
  }

  /** No record behind the zeroed ones has flags in the memory as it was given. */
  predicate CleanBehind(given: seq<File>)
    requires |given| == FILE_DESC_TABLE_INIT_SIZE
  {
    forall fd | 42 <= fd < FILE_DESC_TABLE_INIT_SIZE :: given[fd].flags == 0
  }

  /** After `init_fd_table` bitmap and records agree exactly if the memory behind the zeroed records held no flags, and
      then on a table with nothing open. */
  lemma InitAgreesIff(bits: seq<bv8>, given: seq<File>, t: Table)
    requires |bits| == BITMAP_SIZE && |given| == FILE_DESC_TABLE_INIT_SIZE
    requires forall i | 0 <= i < BITMAP_SIZE :: bits[i] == 0
    ensures AllAgree(bits, Initialised(given), t) <==>
      CleanBehind(given) && forall fd | 0 <= fd < FD_COUNT :: t[fd] == None
  {
    var files := Initialised(given);
    forall fd | 0 <= fd < FD_COUNT
      ensures Agrees(bits, files, t, fd) <==> t[fd] == None && files[fd].flags == 0
    {
      NoBit(fd % 8);
    }
    forall fd | ZEROED_RECORDS <= fd < FILE_DESC_TABLE_INIT_SIZE
      ensures files[fd].flags == given[fd].flags
    {
    }
    if AllAgree(bits, files, t) {
      forall fd | ZEROED_RECORDS <= fd < FILE_DESC_TABLE_INIT_SIZE
        ensures given[fd].flags == 0
      {
        assert fd < FD_COUNT ==> Agrees(bits, files, t, fd);
        assert files[fd].flags == 0;
      }
    }
  }

  /** One descriptor opened or closed in bitmap and records. */
  lemma ChangeAgrees(bits: seq<bv8>, files: seq<File>, t: Table, fd: nat, b: bv8, f: File, entry: Option<File>,
          bits': seq<bv8>, files': seq<File>, t': Table)
    requires AllAgree(bits, files, t) && fd < FD_COUNT && ByteWith(bits[fd / 8], b, fd % 8, entry.Some?)
    requires (f.flags > 0 <==> entry.Some?) && (entry.Some? ==> f == entry.value)
    requires bits' == bits[fd / 8 := b] && files' == files[fd := f] && t' == t[fd := entry]
    ensures var agree := AllAgree(bits', files', t'); agree
  {
    forall k | 0 <= k < FD_COUNT
      ensures Agrees(bits', files', t', k)
    {
      assert Agrees(bits, files, t, k);
      if k / 8 == fd / 8 {
        assert Bit(b, k % 8) <==> if k % 8 == fd % 8 then entry.Some? else Bit(bits[fd / 8], k % 8);
      }
    }
  }

  lemma ByteShows(bits: seq<bv8>, files: seq<File>, t: Table, i: nat)
    requires AllAgree(bits, files, t) && i < BITMAP_SIZE
    ensures Shows(bits[i], t, 8 * i)
  {
    forall j | 0 <= j < 8
      ensures Bit(bits[i], j) <==> t[8 * i + j].Some?
    {
      assert Agrees(bits, files, t, 8 * i + j);
    }
  }

  // ---------- Runs ----------

  datatype Op = Create(file: File) | Delete(fd: nat)

  function After(t: Table, op: Op): Table
    requires op.Delete? ==> op.fd < FD_COUNT
  {
    match op
    case Create(file) => Created(t, file).1
    case Delete(fd) => Deleted(t, fd)
  }

  predicate IsRun(tables: seq<Table>, ops: seq<Op>) {
    && |tables| == |ops| + 1
    && forall i | 0 <= i < |ops| ::
         (ops[i].Delete? ==> ops[i].fd < FD_COUNT) && tables[i + 1] == After(tables[i], ops[i])
  }

  /** A created record reads back as it was stored, with its flags set to 1, until its descriptor is deleted:
      no other call touches it. */
  lemma {:induction false} ReadsBack(tables: seq<Table>, ops: seq<Op>, i: nat, j: nat)
    requires IsRun(tables, ops) && i < j <= |ops| && ops[i].Create? && Created(tables[i], ops[i].file).0 != -1
    requires forall n | i < n < j :: ops[n] != Delete(Created(tables[i], ops[i].file).0)
    ensures tables[j][Created(tables[i], ops[i].file).0] == Some(ops[i].file.(flags := 1))
    decreases j
  {
    if i + 1 < j {
      ReadsBack(tables, ops, i, j - 1);
    }
  }

  /** A deleted descriptor is closed until a call to create one returns it. */
  lemma {:induction false} StaysClosed(tables: seq<Table>, ops: seq<Op>, i: nat, j: nat)
    requires IsRun(tables, ops) && i < j <= |ops| && ops[i].Delete?
    requires forall n | i < n < j && ops[n].Create? :: Created(tables[n], ops[n].file).0 != ops[i].fd
    ensures ops[i].fd < FD_COUNT && tables[j][ops[i].fd] == None
    decreases j
  {
    if i + 1 < j {
      StaysClosed(tables, ops, i, j - 1);
    }
  }

  /** A call to create one right after that returns it exactly if all below were open. */
  lemma ReusedIff(t: Table, fd: nat, file: File)
    requires fd < FD_COUNT
    ensures Created(Deleted(t, fd), file).0 == fd <==> forall k | 0 <= k < fd :: t[k].Some?
  {
    var t' := Deleted(t, fd);
    var r := Created(t', file).0;
    assert t'[fd] == None;
    if forall k | 0 <= k < fd :: t[k].Some? {
      assert r == fd;
    } else {
      var k :| 0 <= k < fd && t[k] == None;
      assert t'[k] == None;
    }
  }

  class FdTable {
    const bitmap: array<bv8>
    const file: array<File>

    /** What bitmap and records agree on. */
    ghost var table: Table

    ghost predicate Valid()
      reads this, bitmap, file
    {
      && bitmap.Length == BITMAP_SIZE && file.Length == FILE_DESC_TABLE_INIT_SIZE
      && AllAgree(bitmap[..], file[..], table)
    }

    /** `init_fd_table`, in the memory that `kmalloc` gave for the records. */
    constructor (given: seq<File>)
      requires |given| == FILE_DESC_TABLE_INIT_SIZE
      ensures fresh(bitmap) && fresh(file) && file[..] == Initialised(given)
      ensures Valid() <==> CleanBehind(given)
      ensures forall fd | 0 <= fd < FD_COUNT :: table[fd] == None
    {
      bitmap := new bv8[BITMAP_SIZE](_ => 0);
      var files := Initialised(given);
      file := new File[FILE_DESC_TABLE_INIT_SIZE](i requires 0 <= i < |files| => files[i]);
      table := seq(FD_COUNT, _ => None);
      new;
      assert file[..] == files;
      InitAgreesIff(bitmap[..], given, table);
    }

    /** `is_valid_fd`.  Descriptors from 120 on have a record, and are never valid. */
    method IsValidFd(fd: int) returns (valid: bool)
      requires Valid() && fd < FILE_DESC_TABLE_INIT_SIZE
      ensures valid <==> 0 <= fd < FD_COUNT && table[fd].Some?
    {
      if fd < 0 {
        return false;
      }
      assert fd < FD_COUNT ==> Agrees(bitmap[..], file[..], table, fd);
      assert file[..][fd] == file[fd];
      valid := file[fd].flags > 0;
    }

    /** `get_file_from_fd`, which copies the record. */
    method GetFileFromFd(fd: int) returns (r: int, f: File)
      requires Valid() && fd < FILE_DESC_TABLE_INIT_SIZE
      ensures if 0 <= fd < FD_COUNT && table[fd].Some? then r == 0 && f == table[fd].value else r == -1
    {
      var valid := IsValidFd(fd);
      if !valid {
        return -1, File(0, 0, 0);
      }
      assert Agrees(bitmap[..], file[..], table, fd);
      return 0, file[fd];
    }

    /** `create_fd`. */
    method CreateFd(f: File) returns (fd: int)
      requires Valid()
      modifies this`table, bitmap, file
      ensures Valid() && (fd, table) == Created(old(table), f)
    {
      fd := -1;
      for i := 0 to BITMAP_SIZE
        invariant Valid() && table == old(table) && fd == -1
        invariant LeastClosed(table, 0) == LeastClosed(table, 8 * i)
      {
        ByteShows(bitmap[..], file[..], table, i);
        if bitmap[i] != 0xff {
          var j := FirstZero(bitmap[i]);
          FirstClosed(bitmap[i], table, 8 * i, j);
          Claim(i, j, f);
          return j + i * 8;
        }
        FullByte(bitmap[i], table, 8 * i);
      }
    }

    /** Set the bit and fill the record. */
    method Claim(i: nat, j: nat, f: File)
      requires Valid() && i < BITMAP_SIZE && j < 8
      modifies this`table, bitmap, file
      ensures Valid() && table == old(table)[8 * i + j := Some(f.(flags := 1))]
    {
      var fd := j + i * 8;
      ghost var bits, files, t, f' := bitmap[..], file[..], table, f.(flags := 1);
      var b := WithBit(bitmap[i], j);
      bitmap[i] := b;
      file[fd] := f;
      file[fd] := file[fd].(flags := 1);
      table := table[fd := Some(f')];
      ChangeAgrees(bits, files, t, fd, b, f', Some(f'), bitmap[..], file[..], table);
    }

    /** `delete_fd`. */
    method DeleteFd(fd: nat)
      requires Valid() && fd < FD_COUNT
      modifies this`table, bitmap, file
      ensures Valid() && table == Deleted(old(table), fd)
      ensures table[fd] == None && forall k | 0 <= k < FD_COUNT && k != fd :: table[k] == old(table)[k]
    {
      ghost var bits, files, t := bitmap[..], file[..], table;
      var b := WithoutBit(bitmap[fd / 8], fd % 8);
      bitmap[fd / 8] := b;
      file[fd] := file[fd].(file_id := 0);
      file[fd] := file[fd].(index := 0);
      file[fd] := file[fd].(flags := 0);
      table := table[fd := None];
      ChangeAgrees(bits, files, t, fd, b, File(0, 0, 0), None, bitmap[..], file[..], table);
    }
  }

  /** The eight bits say which descriptors from `from` on are open. */
  predicate Shows(b: bv8, t: Table, from: nat) {
    from + 8 <= FD_COUNT && forall j | 0 <= j < 8 :: Bit(b, j) <==> t[from + j].Some?
  }

  lemma FullByte(b: bv8, t: Table, from: nat)
    requires Shows(b, t, from) && b == 0xff
    ensures LeastClosed(t, from) == LeastClosed(t, from + 8)
  {
    AllBits(b);
    forall k | from <= k < from + 8
      ensures t[k].Some?
    {
      assert Bit(b, k - from);
    }
    SkipOpen(t, from, from + 8);
  }

  lemma FirstClosed(b: bv8, t: Table, from: nat, j: nat)
    requires Shows(b, t, from) && j < 8 && !Bit(b, j) && forall k | 0 <= k < j :: Bit(b, k)
    ensures LeastClosed(t, from) == from + j
  {
    forall k | from <= k < from + j
      ensures t[k].Some?
    {
      assert Bit(b, k - from);
    }
    SkipOpen(t, from, from + j);
  }

  lemma {:induction false} SkipOpen(t: Table, from: nat, to: nat)
    requires from <= to <= FD_COUNT && forall k | from <= k < to :: t[k].Some?
    ensures LeastClosed(t, from) == LeastClosed(t, to)
    decreases FD_COUNT - from
  {
    if from < to {
      SkipOpen(t, from + 1, to);
    }
  }

  /** The loop over the bits of a byte that is not full. */
  method FirstZero(byte0: bv8) returns (j: nat)
    requires byte0 != 0xff
    ensures j < 8 && !Bit(byte0, j) && forall k | 0 <= k < j :: Bit(byte0, k)
  {
    var byte := byte0;
    AllBits(byte0);
    j := 0;
    while byte & 1 != 0
      invariant j < 8 && byte == ShiftedBy(byte0, j)
      invariant forall k | 0 <= k < j :: Bit(byte0, k)
      decreases 8 - j
    {
      LowestShifted(byte0, j);
      if j == 7 {
        assert forall k | 0 <= k < 8 :: Bit(byte0, k);
        assert false;
      }
      byte := byte >> 1;
      j := j + 1;
    }
    LowestShifted(byte0, j);
  }
}
