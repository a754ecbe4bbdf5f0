/** The abstract disk: one directory, inodes, and what a crash may take back. */
module Disks {
  import opened Outcome
  import opened Bytes

  /** Object names, and the temporary names formed from an object name, a process and a counter. Objects are
      never stored under a temporary name. */
  datatype Path = Object(name: string) | Temp(name: string, pid: nat, counter: nat)

  /** A file's bytes, and whether all of them have been flushed to stable storage. */
  datatype Inode = Inode(bytes: seq<byte>, synced: bool)

  /** `fallback` holds, for each entry changed since the directory was last flushed, the values it may return to
      after a crash; `next` is the next unused inode number. */
  datatype Disk = Disk(
    dir: map<Path, nat>,
    files: map<nat, Inode>,
    fallback: map<Path, set<Option<nat>>>,
    next: nat)
  {
    ghost predicate Ok() {
      && (forall p :: p in dir ==> dir[p] in files)
      && (forall i :: i in files ==> i < next)
      && (forall p, e :: p in fallback && e in fallback[p] && e.Some? ==> e.value in files)
    }

    function Entry(p: Path): Option<nat> {
      if p in dir then Some(dir[p]) else None
    }

    /** The values the entry may have after a crash. */
    function MayBe(p: Path): set<Option<nat>> {
      {Entry(p)} + if p in fallback then fallback[p] else {}
    }

    /** `create_new`: an empty file under a name that did not exist. */
    function CreateNew(p: Path): Disk {
      Disk(dir[p := next], files[next := Inode([], false)], fallback[p := MayBe(p)], next + 1)
    }

    function WriteAt(ino: nat, at: nat, data: seq<byte>): Disk
      requires ino in files
    {
      this.(files := files[ino := Inode(Overwrite(files[ino].bytes, at, data), files[ino].synced && data == [])])
    }

    function Sync(ino: nat): Disk
      requires ino in files
    {
      this.(files := files[ino := files[ino].(synced := true)])
    }

    /** `rename`: atomic, replacing whatever the new name held. */
    function Rename(a: Path, b: Path): Disk
      requires a in dir
    {
      this.(dir := (dir - {a})[b := dir[a]], fallback := fallback[a := MayBe(a)][b := MayBe(b)])
    }

    function Unlink(p: Path): Disk {
      this.(dir := dir - {p}, fallback := fallback[p := MayBe(p)])
    }

    function SyncDirectory(): Disk {
      this.(fallback := map[])
    }
  }

  /** The name holds a file of which every byte is flushed, and its entry cannot return to an earlier value. */
  predicate OnStableStorage(d: Disk, name: string) {
    && Object(name) in d.dir && d.dir[Object(name)] in d.files
    && d.files[d.dir[Object(name)]].synced && Object(name) !in d.fallback
  }

  lemma WriteAtTwice(d: Disk, ino: nat, at: nat, x: seq<byte>, y: seq<byte>)
    requires ino in d.files
    ensures d.WriteAt(ino, at, x).WriteAt(ino, at + |x|, y) == d.WriteAt(ino, at, x + y)
  {
    OverwriteTwice(d.files[ino].bytes, at, x, y);
    var once := d.WriteAt(ino, at, x);
    assert once.files[ino := d.WriteAt(ino, at, x + y).files[ino]]
           == d.files[ino := d.WriteAt(ino, at, x + y).files[ino]];
  }
}
