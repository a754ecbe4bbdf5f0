/** Writing the prefix of an object into a zeroed buffer: `ObjectHeader::write_to_writer` and `encode_prefix`. */
module Prefixes {
  import opened Outcome
  import opened Bytes
  import opened Values
  import opened Blocks
  import opened Layout
  import opened Objects
  import opened Streams
  import opened Codec

  /** One more field behind those already written at `at`. */
  method WriteField(w: SliceCursor, field: seq<byte>, ghost base: seq<byte>, ghost at: nat, ghost done: seq<byte>)
    returns (r: Result<(), EncodingError>)
    requires field != [] && w.pos == at + |done| && w.Bytes() == Overwrite(base, at, done)
    modifies w, w.buffer
    ensures r.Ok? <==> at + |done| + |field| <= w.buffer.Length
    ensures r.Ok? ==> w.pos == at + |done + field| && w.Bytes() == Overwrite(base, at, done + field)
  {
    OverwriteTwice(base, at, done, field);
    r := w.WriteAll(field);
  }

  /** The header, field by field. */
  method WriteHeader(h: ObjectHeader, w: SliceCursor) returns (r: Result<(), EncodingError>)
    requires w.pos <= w.buffer.Length
    modifies w, w.buffer
    ensures r.Ok? <==> old(w.pos) + HEADER_SIZE <= w.buffer.Length
    ensures r.Ok? ==> Wrote(w, EncodeHeader(h))
  {
    hide EncodeCompression, EncodeUint, Overwrite;
    ghost var base, at := w.Bytes(), w.pos;
    ghost var d0: seq<byte> := [];
    assert w.Bytes() == Overwrite(base, at, d0) by { OverwriteNothing(base, at); }
    ghost var d1 := d0 + MAGIC;
    ghost var d2 := d1 + [h.version];
    ghost var d3 := d2 + EncodeCompression(h.compression);
    ghost var d4 := d3 + EncodeUint(h.tagsStart, 2);
    ghost var d5 := d4 + EncodeUint(h.contentStart, 4);
    ghost var d6 := d5 + EncodeUint(h.contentLength, 8);
    ghost var d7 := d6 + [h.bitFlags];
    r := WriteField(w, MAGIC, base, at, d0);
    if r.Err? { return; }
    r := WriteField(w, [h.version], base, at, d1);
    if r.Err? { return; }
    r := WriteField(w, EncodeCompression(h.compression), base, at, d2);
    if r.Err? { return; }
    r := WriteField(w, EncodeUint(h.tagsStart, 2), base, at, d3);
    if r.Err? { return; }
    r := WriteField(w, EncodeUint(h.contentStart, 4), base, at, d4);
    if r.Err? { return; }
    r := WriteField(w, EncodeUint(h.contentLength, 8), base, at, d5);
    if r.Err? { return; }
    r := WriteField(w, [h.bitFlags], base, at, d6);
    if r.Err? { return; }
    r := WriteField(w, Zeros(8), base, at, d7);
    assert d7 + Zeros(8) == EncodeHeader(h);
  }

  lemma OverwriteNothing(base: seq<byte>, at: nat)
    ensures Overwrite(base, at, []) == base
  {
  }

  /** The three writes of `encode_prefix` into a zeroed buffer leave the prefix, padding included. */
  lemma PrefixIsThreeWrites(h: ObjectHeader, mo: seq<Entry>, to: seq<Entry>, zeros: seq<byte>)
    requires SectionsFit(h.Layout(), mo, to) && zeros == Zeros(h.contentStart)
    ensures Overwrite(Overwrite(Overwrite(zeros, 0, EncodeHeader(h)), HEADER_SIZE, EncodeBlock(mo)),
                      h.tagsStart, EncodeBlock(to))
         == Prefix(h, mo, to)
  {
    hide EncodeHeader, EncodeBlock;
    var one := Overwrite(zeros, 0, EncodeHeader(h));
    assert one == EncodeHeader(h) + Zeros(h.contentStart - HEADER_SIZE);
    var two := Overwrite(one, HEADER_SIZE, EncodeBlock(mo));
    var gap := h.tagsStart - HEADER_SIZE - |EncodeBlock(mo)|;
    assert two == EncodeHeader(h) + EncodeBlock(mo) + Zeros(h.contentStart - HEADER_SIZE - |EncodeBlock(mo)|);
    assert two[..h.tagsStart] == EncodeHeader(h) + EncodeBlock(mo) + Zeros(gap);
    assert Drop(two, h.tagsStart + |EncodeBlock(to)|) == Zeros(h.contentStart - h.tagsStart - |EncodeBlock(to)|);
  }

  /** Why sections with room cannot be encoded: a length or a count is beyond its prefix. */
  ghost predicate Unencodable(m: Map, t: Map, e: FileError) {
    e.Encoding? && TooLong(e.error) && !(LegalMap(m) && LegalMap(t))
  }

  /** `encode_prefix`: succeeds exactly when both maps are legal and fit their sections, and then yields the whole
      prefix for some iteration order of each map; a map too large for its section is refused up front. */
  method EncodePrefix(h: ObjectHeader, m: Map, t: Map, layout: SectionLayout)
    returns (r: Result<seq<byte>, FileError>, ghost mo: seq<Entry>, ghost to: seq<Entry>)
    requires layout == h.Layout() && HEADER_SIZE <= layout.tagsStart <= layout.contentStart
    ensures r.Ok? <==> && LegalMap(m) && LegalMap(t)
                       && HEADER_SIZE + MapSize(m) <= layout.tagsStart
                       && layout.tagsStart + MapSize(t) <= layout.contentStart
    ensures r.Ok? ==> && Enumerates(mo, m) && Enumerates(to, t) && SectionsFit(layout, mo, to)
                      && r.value == Prefix(h, mo, to)
    ensures r.Err? ==> !r.error.IO?
    ensures r.Err? && Sound(layout, MapSize(m), MapSize(t)) ==> Unencodable(m, t, r.error)
    ensures HEADER_SIZE + MapSize(m) > layout.tagsStart ==>
              r == Err(ReservedSpaceExceeded(MapSize(m), layout.tagsStart - HEADER_SIZE))
  {
    hide LegalMap, MapSize, EncodeBlock, Overwrite, EncodeHeader, Prefix, Enumerates;
    mo, to := [], [];
    var metadataSize := SizeOf(m);
    var tagsSize := SizeOf(t);
    if metadataSize > layout.tagsStart - HEADER_SIZE {
      return Err(ReservedSpaceExceeded(metadataSize, layout.tagsStart - HEADER_SIZE)), mo, to;
    }
    if tagsSize > layout.contentStart - layout.tagsStart {
      return Err(ReservedSpaceExceeded(tagsSize, layout.contentStart - layout.tagsStart)), mo, to;
    }
    var buffer := new byte[layout.contentStart](_ => 0);
    var cursor := new SliceCursor(buffer);
    ghost var zeros := cursor.Bytes();
    assert zeros == Zeros(h.contentStart);
    var w := WriteHeader(h, cursor);
    match w { case Err(e) => return Err(Encoding(e)), mo, to; case Ok(_) => }
    cursor.SetPosition(HEADER_SIZE);
    w, mo := WriteTags(m, cursor);
    if w.Err? { return Err(Encoding(w.error)), mo, to; }
    cursor.SetPosition(layout.tagsStart);
    w, to := WriteTags(t, cursor);
    if w.Err? { return Err(Encoding(w.error)), mo, to; }
    BlockSize(mo, m);
    BlockSize(to, t);
    PrefixIsThreeWrites(h, mo, to, zeros);
    return Result.Ok(buffer[..]), mo, to;
  }

  lemma BlockSize(es: seq<Entry>, m: Map)
    requires Enumerates(es, m)
    ensures |EncodeBlock(es)| == MapSize(m)
  {
    EnumerationSize(es, m);
  }
}
