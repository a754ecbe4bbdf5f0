/** The streams the codec steps: a seekable reader with short reads, and a cursor over a fixed buffer. */
module Streams {
  import opened Outcome
  import opened Bytes

  /** A byte source. One `Read` may deliver fewer bytes than asked for; the cursor may be sought past the end. */
  class ByteReader {
    const data: seq<byte>
    var pos: nat

    constructor (data: seq<byte>)
      ensures this.data == data && pos == 0
    {
      this.data := data;
      pos := 0;
    }

    function Rest(): seq<byte>
      reads this
    {
      Drop(data, pos)
    }

    method Read(limit: nat) returns (chunk: seq<byte>)
      modifies this`pos
      ensures |chunk| <= limit && |chunk| <= |old(Rest())|
      ensures chunk == old(Rest())[..|chunk|]
      ensures chunk == [] <==> limit == 0 || old(Rest()) == []
      ensures pos == old(pos) + |chunk|
    {
      var most := if |Rest()| < limit then |Rest()| else limit;
      var n: nat :| n <= most && (n == 0 <==> most == 0);
      chunk := Rest()[..n];
      pos := pos + n;
    }

    /** `read_exact`: keeps reading until the buffer is full or the source is dry. */
    method ReadExact(n: nat) returns (r: Result<seq<byte>, EncodingError>)
      modifies this`pos
      ensures match r
              case Ok(b) => n <= |old(Rest())| && b == old(Rest())[..n] && pos == old(pos) + n
              case Err(e) => n > |old(Rest())| && e == Io(UnexpectedEnd)
      ensures r.Ok? ==> Rest() == Drop(old(Rest()), n)
    {
      var got: seq<byte> := [];
      while |got| < n
        invariant |got| <= n && |got| <= |old(Rest())|
        invariant got == old(Rest())[..|got|]
        invariant pos == old(pos) + |got|
        decreases n - |got|
      {
        DropDrop(data, old(pos), |got|);
        var chunk := Read(n - |got|);
        if chunk == [] {
          return Err(Io(UnexpectedEnd));
        }
        TakeSum(old(Rest()), |got|, |chunk|);
        got := got + chunk;
      }
      DropDrop(data, old(pos), n);
      return Result.Ok(got);
    }

    method SeekStart(to: nat)
      modifies this`pos
      ensures pos == to
    {
      pos := to;
    }
  }

  /** A write cursor over a buffer of fixed length, which it cannot outgrow. */
  class SliceCursor {
    const buffer: array<byte>
    var pos: nat

    constructor (buffer: array<byte>)
      ensures this.buffer == buffer && pos == 0
    {
      this.buffer := buffer;
      pos := 0;
    }

    function Bytes(): (b: seq<byte>)
      reads this, buffer
      ensures |b| == buffer.Length
    {
      buffer[..]
    }

    method SetPosition(to: nat)
      modifies this`pos
      ensures pos == to
    {
      pos := to;
    }

    method WriteAll(data: seq<byte>) returns (r: Result<(), EncodingError>)
      modifies this`pos, buffer
      ensures match r
              case Ok(_) =>
                && (data == [] || old(pos) + |data| <= buffer.Length)
                && pos == old(pos) + |data|
                && Bytes() == Overwrite(old(Bytes()), old(pos), data)
              case Err(e) => old(pos) + |data| > buffer.Length && data != [] && e == Io(WriteZero)
    {
      var room := if pos < buffer.Length then buffer.Length - pos else 0;
      var n := if |data| <= room then |data| else room;
      forall i | 0 <= i < n {
        buffer[pos + i] := data[i];
      }
      pos := pos + n;
      if n < |data| {
        return Err(Io(WriteZero));
      }
      return Result.Ok(());
    }
  }
}
