/** The file system as the program calls it. Any call may fail; reads and writes may be short. */
module FileSystems {
  import opened Outcome
  import opened Bytes
  import opened Values
  import opened Objects
  import opened Disks

  const MAX_FILE: nat := 0x7FFF_FFFF_FFFF_FFFF

  /** A file as it was at the moment it was renamed over an object's name. */
  datatype Publication = Publication(path: Path, file: Inode)

  datatype Removal = Removed | Missing | Refused

  datatype Creation = Created(file: File) | AlreadyExists | CreationFailed

  /** Whether one of the temporary names to try is free. */
  datatype Names = AllTaken | SomeFree

  /** What the rest of the program can observe: the entries not given up, the files, and the renames so far. */
  datatype Snapshot = Snapshot(entries: map<Path, nat>, files: map<nat, Inode>, published: seq<Publication>)

  class FileSystem {
    const rules: TextRules
    const pid: nat
    const zstd: bool
    const gzip: bool
    /** What the codec libraries make of stored bytes, or that they refuse them. */
    const decode: (CompressionType, seq<byte>) -> Option<seq<byte>>
    var disk: Disk
    /** The process-wide counter behind temporary names. */
    var counter: nat
    /** Temporary entries whose removal or rename the system refused. */
    ghost var stuck: set<Path>
    /** Every rename so far, in order. */
    ghost var published: seq<Publication>
    /** How many calls the system has refused so far, a write that took nothing included. */
    ghost var refusals: nat

    constructor (rules: TextRules, pid: nat, zstd: bool, gzip: bool,
                 decode: (CompressionType, seq<byte>) -> Option<seq<byte>>, disk: Disk)
      requires disk.Ok()
      ensures Valid() && this.disk == disk && stuck == {} && published == [] && refusals == 0
    {
      this.rules, this.pid, this.zstd, this.gzip, this.decode := rules, pid, zstd, gzip, decode;
      this.disk, counter, stuck, published, refusals := disk, 0, {}, [], 0;
    }

    ghost predicate Valid()
      reads this`disk, this`stuck
    {
      disk.Ok() && stuck <= disk.dir.Keys && forall p :: p in stuck ==> p.Temp?
    }

    /** The directory without the entries the system refused to let go. */
    ghost function Visible(): map<Path, nat>
      reads this`disk, this`stuck
    {
      disk.dir - stuck
    }

    ghost function Now(): Snapshot
      reads this`disk, this`stuck, this`published
    {
      Snapshot(Visible(), disk.files, published)
    }

    /** Whether a temporary name is left among the 32 that would be tried next for this object. */
    ghost function Names(name: string): Names
      reads this`disk, this`counter
    {
      NamesFrom(disk, pid, name, counter)
    }

    method CreateNew(p: Path) returns (r: Creation)
      requires Valid()
      modifies this`disk, this`refusals
      ensures Valid() && refusals == old(refusals) + if r.CreationFailed? then 1 else 0
      ensures match r
              case Created(f) =>
                && p !in old(disk.dir) && disk == old(disk).CreateNew(p)
                && fresh(f) && f.fs == this && f.ino == old(disk.next) && f.pos == 0
              case AlreadyExists => p in old(disk.dir) && disk == old(disk)
              case CreationFailed => p !in old(disk.dir) && disk == old(disk)
    {
      if p in disk.dir {
        return AlreadyExists;
      }
      if * {
        refusals := refusals + 1;
        return CreationFailed;
      }
      var f := new File(this, disk.next, 0);
      disk := disk.CreateNew(p);
      return Created(f);
    }

    method Open(p: Path) returns (r: Result<File, FileError>)
      requires Valid()
      modifies this`refusals
      ensures refusals == old(refusals) + if r == Err(IO(Call.Open)) then 1 else 0
      ensures match r
              case Ok(f) => p in disk.dir && fresh(f) && f.fs == this && f.ino == disk.dir[p] && f.pos == 0
              case Err(e) => e == if p in disk.dir then IO(Call.Open) else IO(NotFound)
    {
      if p !in disk.dir {
        return Err(IO(NotFound));
      }
      if * {
        refusals := refusals + 1;
        return Err(IO(Call.Open));
      }
      var f := new File(this, disk.dir[p], 0);
      return Result.Ok(f);
    }

    method Rename(a: Path, name: string) returns (r: Result<(), FileError>)
      requires Valid() && a.Temp? && a in disk.dir
      modifies this`disk, this`stuck, this`published, this`refusals
      ensures Valid() && refusals == old(refusals) + if r.Err? then 1 else 0
      ensures match r
              case Ok(_) =>
                && disk == old(disk).Rename(a, Object(name)) && stuck == old(stuck) - {a}
                && published == old(published) + [Publication(Object(name), old(disk.files[disk.dir[a]]))]
              case Err(e) =>
                e == IO(Call.Rename) && disk == old(disk) && stuck == old(stuck) + {a} && published == old(published)
    {
      if * {
        stuck := stuck + {a};
        refusals := refusals + 1;
        return Err(IO(Call.Rename));
      }
      published := published + [Publication(Object(name), disk.files[disk.dir[a]])];
      stuck := stuck - {a};
      disk := disk.Rename(a, Object(name));
      return Result.Ok(());
    }

    method Remove(p: Path) returns (r: Removal)
      requires Valid() && p.Temp?
      modifies this`disk, this`stuck, this`refusals
      ensures Valid() && refusals == old(refusals) + if r.Refused? then 1 else 0
      ensures Visible() == old(Visible()) - {p} && disk.files == old(disk.files)
      ensures match r
              case Removed => p in old(disk.dir) && disk == old(disk).Unlink(p) && stuck == old(stuck) - {p}
              case Missing => p !in old(disk.dir) && disk == old(disk) && stuck == old(stuck)
              case Refused => p in old(disk.dir) && disk == old(disk) && stuck == old(stuck) + {p}
    {
      if p !in disk.dir {
        return Missing;
      }
      if * {
        stuck := stuck + {p};
        refusals := refusals + 1;
        return Refused;
      }
      disk := disk.Unlink(p);
      stuck := stuck - {p};
      return Removed;
    }

    /** Flushing the directory is attempted and its outcome ignored. */
    method SyncDirectory()
      requires Valid()
      modifies this`disk, this`refusals
      ensures Valid()
      ensures || (refusals == old(refusals) + 1 && disk == old(disk))
              || (refusals == old(refusals) && disk == old(disk).SyncDirectory())
    {
      if * {
        refusals := refusals + 1;
      } else {
        disk := disk.SyncDirectory();
      }
    }
  }

  /** An open file: a cursor on an inode. */
  class File {
    const fs: FileSystem
    const ino: nat
    var pos: nat

    constructor (fs: FileSystem, ino: nat, pos: nat)
      ensures this.fs == fs && this.ino == ino && this.pos == pos
    {
      this.fs, this.ino, this.pos := fs, ino, pos;
    }

    ghost predicate Valid()
      reads fs`disk, fs`stuck
    {
      fs.Valid() && ino in fs.disk.files
    }

    ghost function Bytes(): seq<byte>
      requires Valid()
      reads fs`disk, fs`stuck
    {
      fs.disk.files[ino].bytes
    }

    /** One write: any prefix may be taken, none of it beyond the largest file offset. */
    method Write(data: seq<byte>) returns (r: Result<nat, FileError>)
      requires Valid()
      modifies this`pos, fs`disk, fs`refusals
      ensures Valid()
      ensures fs.refusals == old(fs.refusals) + if r.Err? || (r.value == 0 && data != []) then 1 else 0
      ensures match r
              case Ok(n) =>
                && n <= |data| && pos == old(pos) + n && (n > 0 ==> pos <= MAX_FILE)
                && fs.disk == old(fs.disk).WriteAt(ino, old(pos), data[..n])
              case Err(e) => e == IO(Call.Write) && pos == old(pos) && fs.disk == old(fs.disk)
    {
      if * {
        fs.refusals := fs.refusals + 1;
        return Err(IO(Call.Write));
      }
      var n: nat :| n <= |data| && (n == 0 || pos + n <= MAX_FILE);
      if n == 0 && data != [] {
        fs.refusals := fs.refusals + 1;
      }
      fs.disk := fs.disk.WriteAt(ino, pos, data[..n]);
      pos := pos + n;
      return Result.Ok(n);
    }

    /** `write_all`: on failure some prefix was written. */
    method WriteAll(data: seq<byte>) returns (r: Result<(), FileError>)
      requires Valid()
      modifies this`pos, fs`disk, fs`refusals
      ensures Valid() && fs.refusals == old(fs.refusals) + if r.Err? then 1 else 0
      ensures r.Ok? ==> pos == old(pos) + |data| && fs.disk == old(fs.disk).WriteAt(ino, old(pos), data)
      ensures r.Err? ==> r.error in {IO(Call.Write), IO(WriteZero)}
      ensures r.Err? ==> exists n: nat :: n <= |data| && fs.disk == old(fs.disk).WriteAt(ino, old(pos), data[..n])
    {
      var done := 0;
      NothingWritten(fs.disk, ino, pos);
      assert data[..done] == [];
      while done < |data|
        invariant done <= |data| && Valid() && pos == old(pos) + done && fs.refusals == old(fs.refusals)
        invariant fs.disk == old(fs.disk).WriteAt(ino, old(pos), data[..done])
        decreases |data| - done
      {
        var n := Write(data[done..]);
        if n.Err? { return Err(n.error); }
        WriteAtTwice(old(fs.disk), ino, old(pos), data[..done], data[done..][..n.value]);
        assert data[..done] + data[done..][..n.value] == data[..done + n.value];
        done := done + n.value;
        if n.value == 0 {
          return Err(IO(WriteZero));
        }
      }
      assert data[..done] == data;
      return Result.Ok(());
    }

    method Read(limit: nat) returns (r: Result<seq<byte>, FileError>)
      requires Valid()
      modifies this`pos, fs`refusals
      ensures fs.refusals == old(fs.refusals) + if r.Err? then 1 else 0
      ensures match r
              case Ok(chunk) =>
                && |chunk| <= limit && |chunk| <= |Drop(Bytes(), old(pos))|
                && chunk == Drop(Bytes(), old(pos))[..|chunk|]
                && pos == old(pos) + |chunk|
                && (chunk == [] <==> limit == 0 || Drop(Bytes(), old(pos)) == [])
              case Err(e) => e == IO(Call.Read) && pos == old(pos)
    {
      if * {
        fs.refusals := fs.refusals + 1;
        return Err(IO(Call.Read));
      }
      var rest := Drop(fs.disk.files[ino].bytes, pos);
      var most := if |rest| < limit then |rest| else limit;
      var n: nat :| n <= most && (n == 0 <==> most == 0);
      pos := pos + n;
      return Result.Ok(rest[..n]);
    }

    method ReadExact(n: nat) returns (r: Result<seq<byte>, FileError>)
      requires Valid()
      modifies this`pos, fs`refusals
      ensures fs.refusals == old(fs.refusals) + if r == Err(IO(Call.Read)) then 1 else 0
      ensures match r
              case Ok(b) =>
                && n <= |Drop(Bytes(), old(pos))| && b == Drop(Bytes(), old(pos))[..n] && pos == old(pos) + n
              case Err(e) => e == IO(Call.Read) || (e == IO(UnexpectedEnd) && n > |Drop(Bytes(), old(pos))|)
    {
      ghost var rest := Drop(Bytes(), pos);
      var got: seq<byte> := [];
      while |got| < n
        invariant |got| <= n && |got| <= |rest| && got == rest[..|got|] && pos == old(pos) + |got|
        invariant fs.refusals == old(fs.refusals)
        decreases n - |got|
      {
        DropDrop(fs.disk.files[ino].bytes, old(pos), |got|);
        var chunk := Read(n - |got|);
        if chunk.Err? { return Err(chunk.error); }
        if chunk.value == [] { return Err(IO(UnexpectedEnd)); }
        TakeSum(rest, |got|, |chunk.value|);
        got := got + chunk.value;
      }
      return Result.Ok(got);
    }

    method SeekStart(to: nat) returns (r: Result<(), FileError>)
      modifies this`pos, fs`refusals
      ensures fs.refusals == old(fs.refusals) + if r.Err? then 1 else 0
      ensures match r
              case Ok(_) => pos == to
              case Err(e) => e == IO(Seek) && pos == old(pos)
    {
      if * {
        fs.refusals := fs.refusals + 1;
        return Err(IO(Seek));
      }
      pos := to;
      return Result.Ok(());
    }

    method Flush() returns (r: Result<(), FileError>)
      modifies fs`refusals
      ensures fs.refusals == old(fs.refusals) + if r.Err? then 1 else 0
      ensures r.Err? ==> r.error == IO(Call.Flush)
    {
      if * {
        fs.refusals := fs.refusals + 1;
        return Err(IO(Call.Flush));
      }
      return Result.Ok(());
    }

    method SyncAll() returns (r: Result<(), FileError>)
      requires Valid()
      modifies fs`disk, fs`refusals
      ensures Valid() && fs.refusals == old(fs.refusals) + if r.Err? then 1 else 0
      ensures match r
              case Ok(_) => fs.disk == old(fs.disk).Sync(ino)
              case Err(e) => e == IO(Call.SyncAll) && fs.disk == old(fs.disk)
    {
      if * {
        fs.refusals := fs.refusals + 1;
        return Err(IO(Call.SyncAll));
      }
      fs.disk := fs.disk.Sync(ino);
      return Result.Ok(());
    }

    /** `try_clone`: a second handle on the same inode. */
    method Duplicate() returns (r: Result<File, FileError>)
      modifies fs`refusals
      ensures fs.refusals == old(fs.refusals) + if r.Err? then 1 else 0
      ensures match r
              case Ok(f) => fresh(f) && f.fs == fs && f.ino == ino && f.pos == pos
              case Err(e) => e == IO(Call.Duplicate)
    {
      if * {
        fs.refusals := fs.refusals + 1;
        return Err(IO(Call.Duplicate));
      }
      var f := new File(fs, ino, pos);
      return Result.Ok(f);
    }
  }

  /** `counter` is the first one from `first` on, among the 32 that are tried, whose temporary name is free. */
  ghost predicate FirstFree(d: Disk, pid: nat, name: string, first: nat, counter: nat) {
    && first <= counter < first + 32 && Temp(name, pid, counter) !in d.dir
    && forall c: nat :: first <= c < counter ==> Temp(name, pid, c) in d.dir
  }

  ghost function NamesFrom(d: Disk, pid: nat, name: string, counter: nat): Names {
    if forall c: nat :: counter <= c < counter + 32 ==> Temp(name, pid, c) in d.dir then AllTaken else SomeFree
  }

  lemma NothingWritten(d: Disk, ino: nat, at: nat)
    requires ino in d.files
    ensures d.WriteAt(ino, at, []) == d
  {
    assert d.files[ino := d.files[ino]] == d.files;
  }
}
