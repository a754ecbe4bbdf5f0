/** Readers bounded to the content section: `ContentReader::read` and the polled `ContentSection`. */
module ContentReaders {
  import opened Outcome
  import opened Bytes
  import opened FileSystems

  class ContentReader {
    const file: File
    var remaining: nat

    constructor (file: File, remaining: nat)
      ensures this.file == file && this.remaining == remaining
    {
      this.file, this.remaining := file, remaining;
    }

    /** Everything this reader may still deliver. */
    ghost function ToCome(): seq<byte>
      requires file.Valid()
      reads this`remaining, file`pos, file.fs`disk, file.fs`stuck
    {
      Window(file.Bytes(), file.pos, remaining)
    }

    /** One read: a prefix of what is to come, empty only at its end or for an empty buffer; what is left to come is
        exactly the rest of it, and `remaining` counts down by what was delivered. */
    method Read(limit: nat) returns (r: Result<seq<byte>, FileError>)
      requires file.Valid()
      modifies this`remaining, file`pos, file.fs`refusals
      ensures file.Valid() && file.fs.refusals == old(file.fs.refusals) + if r.Err? then 1 else 0
      ensures match r
              case Ok(chunk) =>
                && |chunk| <= limit && |chunk| <= |old(ToCome())|
                && chunk == old(ToCome())[..|chunk|] && ToCome() == old(ToCome())[|chunk|..]
                && remaining + |chunk| == old(remaining)
                && (chunk == [] <==> limit == 0 || old(ToCome()) == [])
              case Err(e) => e == IO(Call.Read) && ToCome() == old(ToCome()) && remaining == old(remaining)
    {
      if remaining == 0 || limit == 0 {
        return Result.Ok([]);
      }
      var most := if remaining < limit then remaining else limit;
      r := file.Read(most);
      if r.Ok? {
        WindowFront(file.Bytes(), old(file.pos), remaining, |r.value|);
        remaining := remaining - |r.value|;
      }
    }

    /** Any sequence of reads, up to the first that fails: what they deliver together is a prefix of what was to come,
        and `remaining` counts the rest. */
    method ReadMany(limits: seq<nat>) returns (delivered: seq<byte>, failed: bool)
      requires file.Valid()
      modifies this`remaining, file`pos, file.fs`refusals
      ensures file.Valid() && |delivered| <= |old(ToCome())|
      ensures delivered == old(ToCome())[..|delivered|] && ToCome() == old(ToCome())[|delivered|..]
      ensures remaining + |delivered| == old(remaining)
      ensures file.fs.refusals == old(file.fs.refusals) + if failed then 1 else 0
    {
      hide Window, Drop;
      delivered, failed := [], false;
      for i := 0 to |limits|
        invariant file.Valid() && delivered + ToCome() == old(ToCome()) && remaining + |delivered| == old(remaining)
        invariant !failed && file.fs.refusals == old(file.fs.refusals)
      {
        ghost var toCome := ToCome();
        var chunk := Read(limits[i]);
        if chunk.Err? {
          failed := true;
          break;
        }
        assert toCome == chunk.value + ToCome();
        Associate(delivered, chunk.value, ToCome());
        delivered := delivered + chunk.value;
      }
      SplitAt(delivered, ToCome());
    }

    /** `read_to_end`: terminates, and on success returns exactly what was to come. */
    method ReadToEnd() returns (r: Result<seq<byte>, FileError>)
      requires file.Valid()
      modifies this`remaining, file`pos, file.fs`refusals
      ensures file.Valid() && file.fs.refusals == old(file.fs.refusals) + if r.Err? then 1 else 0
      ensures match r
              case Ok(all) => all == old(ToCome()) && remaining + |all| == old(remaining)
              case Err(e) => e == IO(Call.Read)
    {
      hide Window, Drop;
      var all: seq<byte> := [];
      while true
        invariant file.Valid() && all + ToCome() == old(ToCome()) && remaining + |all| == old(remaining)
        invariant file.fs.refusals == old(file.fs.refusals)
        decreases remaining
      {
        var limit: nat :| limit > 0;
        ghost var toCome := ToCome();
        var chunk := Read(limit);
        if chunk.Err? { return Err(chunk.error); }
        if chunk.value == [] {
          return Result.Ok(all);
        }
        assert toCome == chunk.value + ToCome();
        Associate(all, chunk.value, ToCome());
        all := all + chunk.value;
      }
    }
  }

  datatype Poll = Pending | Ready(chunk: seq<byte>) | Failed(error: FileError)

  /** The async reader. One poll is one step; the inner file may answer that it is not ready. */
  class ContentSection {
    const file: File
    var remaining: nat

    constructor (file: File, remaining: nat)
      ensures this.file == file && this.remaining == remaining
    {
      this.file, this.remaining := file, remaining;
    }

    ghost function ToCome(): seq<byte>
      requires file.Valid()
      reads this`remaining, file`pos, file.fs`disk, file.fs`stuck
    {
      Window(file.Bytes(), file.pos, remaining)
    }

    /** `poll_read` into a buffer with room for `room` bytes: the guarantees of `ContentReader.Read`, and nothing
        changes while pending. */
    method PollRead(room: nat) returns (p: Poll)
      requires file.Valid()
      modifies this`remaining, file`pos, file.fs`refusals
      ensures file.Valid() && file.fs.refusals == old(file.fs.refusals) + if p.Failed? then 1 else 0
      ensures match p
              case Ready(chunk) =>
                && |chunk| <= room && |chunk| <= |old(ToCome())|
                && chunk == old(ToCome())[..|chunk|] && ToCome() == old(ToCome())[|chunk|..]
                && remaining + |chunk| == old(remaining)
                && (chunk == [] <==> room == 0 || old(ToCome()) == [])
              case Pending => ToCome() == old(ToCome()) && remaining == old(remaining)
              case Failed(e) => e == IO(Call.Read) && ToCome() == old(ToCome()) && remaining == old(remaining)
    {
      if remaining == 0 {
        return Ready([]);
      }
      if * {
        return Pending;
      }
      var limit := if remaining < room then remaining else room;
      var r := file.Read(limit);
      match r
      case Err(e) => return Failed(e);
      case Ok(chunk) =>
        WindowFront(file.Bytes(), old(file.pos), remaining, |chunk|);
        remaining := remaining - |chunk|;
        return Ready(chunk);
    }

    /** Any sequence of polls, up to the first that fails: the guarantees of `ContentReader.ReadMany`. */
    method PollMany(rooms: seq<nat>) returns (delivered: seq<byte>, failed: bool)
      requires file.Valid()
      modifies this`remaining, file`pos, file.fs`refusals
      ensures file.Valid() && |delivered| <= |old(ToCome())|
      ensures delivered == old(ToCome())[..|delivered|] && ToCome() == old(ToCome())[|delivered|..]
      ensures remaining + |delivered| == old(remaining)
      ensures file.fs.refusals == old(file.fs.refusals) + if failed then 1 else 0
    {
      hide Window, Drop, ContentSection.ToCome;
      delivered, failed := [], false;
      for i := 0 to |rooms|
        invariant file.Valid() && delivered + ToCome() == old(ToCome()) && remaining + |delivered| == old(remaining)
        invariant !failed && file.fs.refusals == old(file.fs.refusals)
      {
        ghost var toCome := ToCome();
        var poll := PollRead(rooms[i]);
        if poll.Failed? {
          failed := true;
          break;
        }
        if poll.Ready? {
          TakenOff(delivered, toCome, |poll.chunk|);
          delivered := delivered + poll.chunk;
        }
      }
      SplitAt(delivered, ToCome());
    }
  }

  /** What is taken off the front of what is to come goes to the end of what was delivered. */
  lemma TakenOff(delivered: seq<byte>, toCome: seq<byte>, n: nat)
    requires n <= |toCome|
    ensures (delivered + toCome[..n]) + toCome[n..] == delivered + toCome
  {
    assert toCome[..n] + toCome[n..] == toCome;
  }

  lemma SplitAt(a: seq<byte>, b: seq<byte>)
    ensures (a + b)[..|a|] == a && (a + b)[|a|..] == b
  {
  }
}
