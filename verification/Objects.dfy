/** The bytes of a whole object: the 32-byte header, the prefix in front of the content, and what opening a
    file with such bytes yields. */
module Objects {
  import opened Outcome
  import opened Bytes
  import opened Values
  import opened Blocks
  import opened Layout

  datatype CompressionType = NoCompression | Zstd(zstdLevel: i32) | Gzip(gzipLevel: u32)

  datatype ObjectHeader = ObjectHeader(
    version: u8,
    compression: CompressionType,
    tagsStart: u16,
    contentStart: u32,
    contentLength: u64,
    bitFlags: u8)
  {
    function Layout(): SectionLayout {
      SectionLayout(tagsStart, contentStart)
    }
  }

  const MAGIC: seq<byte> := [0x54, 0x55, 0x58]
  const CURRENT_VERSION: u8 := 0

  // ---- header codec -----------------------------------------------------------------------------

  function EncodeCompression(c: CompressionType): (b: seq<byte>)
    ensures |b| == 5
  {
    Pow256Values();
    match c
    case NoCompression => Zeros(5)
    case Zstd(level) => [1] + EncodeInt(level, 4)
    case Gzip(level) => [2] + EncodeUint(level, 4)
  }

  function DecodeCompression(b: seq<byte>): Result<CompressionType, EncodingError>
    requires |b| == 5
  {
    Pow256Values();
    if b[0] == 0 then Result.Ok(NoCompression)
    else if b[0] == 1 then Result.Ok(Zstd(Signed(Uint(b[1..5]), 4)))
    else if b[0] == 2 then Result.Ok(Gzip(Uint(b[1..5])))
    else Err(InvalidCompressionType(b[0]))
  }

  function EncodeHeader(h: ObjectHeader): (b: seq<byte>)
    ensures |b| == HEADER_SIZE
  {
    MAGIC + [h.version] + EncodeCompression(h.compression) + EncodeUint(h.tagsStart, 2)
    + EncodeUint(h.contentStart, 4) + EncodeUint(h.contentLength, 8) + [h.bitFlags] + Zeros(8)
  }

  function DecodeHeader(b: seq<byte>): Result<ObjectHeader, EncodingError> {
    Pow256Values();
    if |b| < HEADER_SIZE then Err(UnexpectedEof)
    else if b[..3] != MAGIC then Err(InvalidMagic)
    else if b[3] != CURRENT_VERSION then Err(UnsupportedVersion(b[3]))
    else
      match DecodeCompression(b[4..9])
      case Err(e) => Err(e)
      case Ok(c) =>
        Result.Ok(ObjectHeader(b[3], c, Uint(b[9..11]), Uint(b[11..15]), Uint(b[15..23]), b[23]))
  }

  lemma CompressionRoundTrip(c: CompressionType)
    ensures DecodeCompression(EncodeCompression(c)) == Result.Ok(c)
  {
    Pow256Values();
    match c
    case NoCompression =>
    case Zstd(level) =>
      IntRoundTrip(level, 4);
      assert EncodeCompression(c)[1..5] == EncodeInt(level, 4);
    case Gzip(level) =>
      FromLeToLe(level, 4);
      assert EncodeCompression(c)[1..5] == EncodeUint(level, 4);
  }

  lemma HeaderFields(h: ObjectHeader, rest: seq<byte>)
    ensures var b := EncodeHeader(h) + rest;
            && b[..3] == MAGIC && b[3] == h.version
            && b[4..9] == EncodeCompression(h.compression)
            && b[9..11] == EncodeUint(h.tagsStart, 2)
            && b[11..15] == EncodeUint(h.contentStart, 4)
            && b[15..23] == EncodeUint(h.contentLength, 8)
            && b[23] == h.bitFlags
            && b[24..32] == Zeros(8)
  {
    hide EncodeCompression, EncodeUint;
  }

  /** A header is read back exactly when it carries the current version, whatever follows its 32 bytes. */
  lemma HeaderRoundTrip(h: ObjectHeader, rest: seq<byte>)
    ensures DecodeHeader(EncodeHeader(h) + rest)
         == if h.version == CURRENT_VERSION then Result.Ok(h) else Err(UnsupportedVersion(h.version))
  {
    HeaderFields(h, rest);
    hide EncodeHeader, EncodeCompression, DecodeCompression;
    CompressionRoundTrip(h.compression);
    Pow256Values();
    FromLeToLe(h.tagsStart, 2);
    FromLeToLe(h.contentStart, 4);
    FromLeToLe(h.contentLength, 8);
  }

  /** The bytes a decoder ignores: the placeholder, and the level bytes of an uncompressed object. */
  predicate ReservedBytesAreZero(b: seq<byte>)
    requires |b| >= HEADER_SIZE
  {
    b[24..32] == Zeros(8) && (b[4] == 0 ==> b[5..9] == Zeros(4))
  }

  /** On arbitrary bytes, re-encoding a decoded header reproduces them exactly when the ignored bytes
      are zero: every other byte of the header carries information. */
  lemma HeaderCanonical(b: seq<byte>)
    requires DecodeHeader(b).Ok?
    ensures EncodeHeader(DecodeHeader(b).value) == b[..HEADER_SIZE] <==> ReservedBytesAreZero(b)
  {
    var h := DecodeHeader(b).value;
    var e := EncodeHeader(h);
    HeaderFields(h, []);
    assert e + [] == e;
    CompressionCanonical(b[4..9]);
    FieldsCanonical(b);
    hide EncodeHeader, EncodeCompression, DecodeCompression, DecodeHeader, EncodeUint;
    assert b[4..9][1..] == b[5..9];
    SplitAtFields(e, b[..32]);
    assert b[..32][..3] == b[..3] && b[..32][4..9] == b[4..9] && b[..32][9..11] == b[9..11];
    assert b[..32][11..15] == b[11..15] && b[..32][15..23] == b[15..23] && b[..32][24..32] == b[24..32];
  }

  lemma SplitAtFields(x: seq<byte>, y: seq<byte>)
    requires |x| == |y| == HEADER_SIZE
    ensures x == y <==>
            && x[..3] == y[..3] && x[3] == y[3] && x[4..9] == y[4..9] && x[9..11] == y[9..11]
            && x[11..15] == y[11..15] && x[15..23] == y[15..23] && x[23] == y[23] && x[24..32] == y[24..32]
  {
    forall i | 0 <= i < 32 && x[..3] == y[..3] && x[3] == y[3] && x[4..9] == y[4..9] && x[9..11] == y[9..11]
            && x[11..15] == y[11..15] && x[15..23] == y[15..23] && x[23] == y[23] && x[24..32] == y[24..32]
      ensures x[i] == y[i]
    {
      if i < 3 { assert x[..3][i] == y[..3][i]; }
      else if 4 <= i < 9 { assert x[4..9][i - 4] == y[4..9][i - 4]; }
      else if 9 <= i < 11 { assert x[9..11][i - 9] == y[9..11][i - 9]; }
      else if 11 <= i < 15 { assert x[11..15][i - 11] == y[11..15][i - 11]; }
      else if 15 <= i < 23 { assert x[15..23][i - 15] == y[15..23][i - 15]; }
      else if 24 <= i { assert x[24..32][i - 24] == y[24..32][i - 24]; }
    }
  }

  lemma FieldsCanonical(b: seq<byte>)
    requires DecodeHeader(b).Ok?
    ensures var h := DecodeHeader(b).value;
            && b[..3] == MAGIC && b[3] == h.version && DecodeCompression(b[4..9]) == Result.Ok(h.compression)
            && EncodeUint(h.tagsStart, 2) == b[9..11] && EncodeUint(h.contentStart, 4) == b[11..15]
            && EncodeUint(h.contentLength, 8) == b[15..23] && h.bitFlags == b[23]
  {
    hide DecodeCompression;
    ToLeFromLe(b[9..11]);
    ToLeFromLe(b[11..15]);
    ToLeFromLe(b[15..23]);
  }

  lemma CompressionCanonical(b: seq<byte>)
    requires |b| == 5 && DecodeCompression(b).Ok?
    ensures EncodeCompression(DecodeCompression(b).value) == b <==> (b[0] == 0 ==> b[1..] == Zeros(4))
  {
    Pow256Values();
    IntCanonical(b[1..5]);
    ToLeFromLe(b[1..5]);
    assert b == [b[0]] + b[1..5];
    assert b[1..] == b[1..5];
    if b[0] == 0 {
      assert Zeros(5)[1..] == Zeros(4);
      assert Zeros(5) == [0] + Zeros(4);
    }
  }

  /** The documented bytes of the compression field: the codec, then the level. */
  function WireCompression(c: CompressionType): seq<byte> {
    match c
    case NoCompression => [0, 0, 0, 0, 0]
    case Zstd(level) => [1] + Wire4(if level < 0 then level + 0x1_0000_0000 else level)
    case Gzip(level) => [2] + Wire4(level)
  }

  lemma CompressionOnTheWire(c: CompressionType)
    ensures EncodeCompression(c) == WireCompression(c)
  {
    hide Wire4, EncodeInt, EncodeUint;
    match c
    case NoCompression =>
    case Zstd(level) => Wire4IsInt(level);
    case Gzip(level) => Wire4IsUint(level);
  }

  /** What is encoded is the documented header, byte by byte. */
  lemma HeaderOnTheWire(h: ObjectHeader)
    ensures EncodeHeader(h)
         == [0x54, 0x55, 0x58, h.version] + WireCompression(h.compression) + Wire2(h.tagsStart) + Wire4(h.contentStart)
            + Wire8(h.contentLength) + [h.bitFlags] + [0, 0, 0, 0, 0, 0, 0, 0]
  {
    hide Wire2, Wire4, Wire8, EncodeUint, WireCompression, EncodeCompression;
    CompressionOnTheWire(h.compression);
    Wire2IsUint(h.tagsStart);
    Wire4IsUint(h.contentStart);
    Wire8IsUint(h.contentLength);
  }

  /** The documented form of the field, from arbitrary bytes: the level of an uncompressed object is ignored. */
  predicate CompressionIs(b: seq<byte>, c: CompressionType)
    requires |b| == 5
  {
    if c.NoCompression? then b[0] == 0 else b == WireCompression(c)
  }

  lemma CompressionFromTheWire(b: seq<byte>, c: CompressionType)
    requires |b| == 5
    ensures DecodeCompression(b) == Result.Ok(c) <==> CompressionIs(b, c)
    ensures DecodeCompression(b) == Err(InvalidCompressionType(b[0])) <==> b[0] > 2
  {
    hide EncodeCompression, WireCompression;
    if DecodeCompression(b) == Result.Ok(c) {
      CompressionCanonical(b);
      CompressionOnTheWire(c);
    } else if CompressionIs(b, c) {
      CompressionRoundTrip(c);
      CompressionOnTheWire(c);
    }
  }

  /** Decoding is the inverse of the documented form, on any bytes: exactly the bytes that carry the signature, the
      current version, the documented codec and these fields decode to this header. */
  lemma HeaderFromTheWire(b: seq<byte>, h: ObjectHeader)
    ensures DecodeHeader(b) == Result.Ok(h) <==>
            && |b| >= 32 && b[..4] == [0x54, 0x55, 0x58, 0] && h.version == 0
            && CompressionIs(b[4..9], h.compression)
            && b[9..11] == Wire2(h.tagsStart) && b[11..15] == Wire4(h.contentStart)
            && b[15..23] == Wire8(h.contentLength) && b[23] == h.bitFlags
  {
    hide Wire2, Wire4, Wire8, EncodeUint, DecodeCompression, CompressionIs;
    Wire2IsUint(h.tagsStart);
    Wire4IsUint(h.contentStart);
    Wire8IsUint(h.contentLength);
    if |b| >= HEADER_SIZE {
      CompressionFromTheWire(b[4..9], h.compression);
      assert b[..4] == b[..3] + [b[3]];
      if DecodeHeader(b) == Result.Ok(h) {
        FieldsCanonical(b);
      } else {
        Pow256Values();
        FromLeToLe(h.tagsStart, 2);
        FromLeToLe(h.contentStart, 4);
        FromLeToLe(h.contentLength, 8);
        UintOf(b[9..11], h.tagsStart);
        UintOf(b[11..15], h.contentStart);
        UintOf(b[15..23], h.contentLength);
      }
    }
  }

  /** Which bytes are no header, and what is reported of them. */
  lemma HeadersRefused(b: seq<byte>)
    ensures DecodeHeader(b) == Err(UnexpectedEof) <==> |b| < 32
    ensures DecodeHeader(b) == Err(InvalidMagic) <==> |b| >= 32 && b[..3] != [0x54, 0x55, 0x58]
    ensures |b| >= 32 && b[..3] == [0x54, 0x55, 0x58] ==>
              && (DecodeHeader(b) == Err(UnsupportedVersion(b[3])) <==> b[3] != 0)
              && (DecodeHeader(b) == Err(InvalidCompressionType(b[4])) <==> b[3] == 0 && b[4] > 2)
              && (DecodeHeader(b).Ok? <==> b[3] == 0 && b[4] <= 2)
  {
    hide Uint, Signed;
    if |b| >= HEADER_SIZE {
      assert b[4..9][0] == b[4];
    }
  }

  lemma UintOf(b: seq<byte>, n: nat)
    requires n < Pow256(|b|)
    ensures b == EncodeUint(n, |b|) ==> Uint(b) == n
  {
    FromLeToLe(n, |b|);
  }

  // ---- prefix and object ------------------------------------------------------------------------

  /** The two blocks, in these iteration orders, fit the sections the layout gives them. */
  predicate SectionsFit(l: SectionLayout, mo: seq<Entry>, to: seq<Entry>) {
    && HEADER_SIZE + |EncodeBlock(mo)| <= l.tagsStart
    && l.tagsStart + |EncodeBlock(to)| <= l.contentStart
  }

  /** Everything in front of the content: header, metadata, padding, tags, padding. */
  function Prefix(h: ObjectHeader, mo: seq<Entry>, to: seq<Entry>): (b: seq<byte>)
    requires SectionsFit(h.Layout(), mo, to)
    ensures |b| == h.contentStart
  {
    EncodeHeader(h)
    + EncodeBlock(mo) + Zeros(h.tagsStart - HEADER_SIZE - |EncodeBlock(mo)|)
    + EncodeBlock(to) + Zeros(h.contentStart - h.tagsStart - |EncodeBlock(to)|)
  }

  /** `file` is a complete object with this header, metadata, tags and content. */
  ghost predicate IsObject(file: seq<byte>, h: ObjectHeader, m: Map, t: Map, content: seq<byte>) {
    && LegalMap(m) && LegalMap(t)
    && h.version == CURRENT_VERSION && h.contentLength == |content|
    && exists mo, to :: IsImage(file, h, m, t, content, mo, to)
  }

  ghost predicate IsImage(file: seq<byte>, h: ObjectHeader, m: Map, t: Map, content: seq<byte>,
                          mo: seq<Entry>, to: seq<Entry>)
  {
    && Enumerates(mo, m) && Enumerates(to, t)
    && SectionsFit(h.Layout(), mo, to)
    && file == Prefix(h, mo, to) + content
  }

  /** What opening a file yields: the header and the metadata. */
  function OpenBytes(rules: ParseRules, file: seq<byte>): Result<(ObjectHeader, Map), FileError> {
    if |file| < HEADER_SIZE then Err(IO(UnexpectedEnd))
    else
      match DecodeHeader(file[..HEADER_SIZE])
      case Err(e) => Err(Encoding(e))
      case Ok(h) =>
        if h.tagsStart <= HEADER_SIZE then Result.Ok((h, map[]))
        else if |file| < h.tagsStart then Err(IO(UnexpectedEnd))
        else
          match DecodeBlock(rules, MetaKey, file[HEADER_SIZE..h.tagsStart])
          case Fail(e) => Err(Encoding(e))
          case Ok(es, _) => Result.Ok((h, MapOf(es)))
  }

  /** The tag section a header points at; its size underflows when the content starts before it. */
  function TagSection(file: seq<byte>, h: ObjectHeader): Result<seq<byte>, FileError> {
    if h.contentStart < h.tagsStart then Err(Overflow)
    else if h.contentStart == h.tagsStart then Result.Ok([])
    else if |file| < h.contentStart then Err(IO(UnexpectedEnd))
    else Result.Ok(file[h.tagsStart..h.contentStart])
  }

  function TagBytes(rules: ParseRules, file: seq<byte>, h: ObjectHeader): Result<Map, FileError> {
    match TagSection(file, h)
    case Err(e) => Err(e)
    case Ok(b) =>
      if b == [] then Result.Ok(map[])
      else
        match DecodeBlock(rules, TagKey, b)
        case Fail(e) => Err(Encoding(e))
        case Ok(es, _) => Result.Ok(MapOf(es))
  }

  /** The stored content: what the file holds of the `contentLength` bytes from `contentStart` on. */
  function StoredContent(file: seq<byte>, h: ObjectHeader): (c: seq<byte>)
    ensures |c| <= h.contentLength
  {
    Window(file, h.contentStart, h.contentLength)
  }

  lemma PrefixParts(h: ObjectHeader, mo: seq<Entry>, to: seq<Entry>, content: seq<byte>)
    requires SectionsFit(h.Layout(), mo, to)
    ensures var file := Prefix(h, mo, to) + content;
            && file[..HEADER_SIZE] == EncodeHeader(h)
            && file[HEADER_SIZE..h.tagsStart]
               == EncodeBlock(mo) + Zeros(h.tagsStart - HEADER_SIZE - |EncodeBlock(mo)|)
            && file[h.tagsStart..h.contentStart]
               == EncodeBlock(to) + Zeros(h.contentStart - h.tagsStart - |EncodeBlock(to)|)
            && Drop(file, h.contentStart) == content
  {
    hide EncodeHeader, EncodeBlock;
  }

  /** A prefix decodes to what it was made of, whatever follows it. */
  lemma PrefixDecodes(rules: TextRules, h: ObjectHeader, m: Map, t: Map, mo: seq<Entry>, to: seq<Entry>,
                      rest: seq<byte>)
    requires h.version == CURRENT_VERSION && LegalMap(m) && LegalMap(t) && Enumerates(mo, m) && Enumerates(to, t)
    requires SectionsFit(h.Layout(), mo, to)
    requires WellTypedMap(rules, MetaKey, m) && WellTypedMap(rules, TagKey, t)
    ensures var file := Prefix(h, mo, to) + rest;
            && OpenBytes(rules, file) == Result.Ok((h, m))
            && TagBytes(rules, file, h) == Result.Ok(t)
            && Drop(file, h.contentStart) == rest
  {
    hide EncodeBlock, DecodeBlock, Prefix, EncodeHeader, DecodeHeader, LegalMap, WellTypedMap;
    PrefixParts(h, mo, to, rest);
    HeaderRoundTrip(h, []);
    assert EncodeHeader(h) + [] == EncodeHeader(h);
    BlockRoundTrip(rules, MetaKey, mo, m, Zeros(h.tagsStart - HEADER_SIZE - |EncodeBlock(mo)|));
    BlockRoundTrip(rules, TagKey, to, t, Zeros(h.contentStart - h.tagsStart - |EncodeBlock(to)|));
  }

  /** The object round trip: a complete object opens to exactly its header and metadata, its tag section
      decodes to exactly its tags, and its stored content is exactly its content. */
  lemma ObjectDecodes(rules: TextRules, file: seq<byte>, h: ObjectHeader, m: Map, t: Map, content: seq<byte>)
    requires IsObject(file, h, m, t, content)
    requires WellTypedMap(rules, MetaKey, m) && WellTypedMap(rules, TagKey, t)
    ensures OpenBytes(rules, file) == Result.Ok((h, m))
    ensures TagBytes(rules, file, h) == Result.Ok(t)
    ensures StoredContent(file, h) == content
  {
    hide Prefix, OpenBytes, TagBytes, LegalMap, WellTypedMap, EncodeBlock, Enumerates;
    var mo, to :| IsImage(file, h, m, t, content, mo, to);
    PrefixDecodes(rules, h, m, t, mo, to, content);
  }

  /** Opening never yields an ill-typed map, on any bytes: cached metadata can always be written again. */
  lemma OpenIsWellTyped(rules: TextRules, file: seq<byte>)
    ensures match OpenBytes(rules, file)
            case Err(_) => true
            case Ok((h, m)) => h.version == CURRENT_VERSION && WellTypedMap(rules, MetaKey, m)
    ensures forall h: ObjectHeader ::
              TagBytes(rules, file, h).Ok? ==> WellTypedMap(rules, TagKey, TagBytes(rules, file, h).value)
  {
    hide DecodeBlock, WellTypedMap, DecodeHeader;
    if OpenBytes(rules, file).Ok? {
      HeaderVersion(file[..HEADER_SIZE]);
      var h := OpenBytes(rules, file).value.0;
      if h.tagsStart <= HEADER_SIZE {
        NoneWellTyped(rules, MetaKey);
      } else {
        MeasureAgreesWithDecode(rules, MetaKey, file[HEADER_SIZE..h.tagsStart]);
      }
    }
    forall h: ObjectHeader | TagBytes(rules, file, h).Ok?
      ensures WellTypedMap(rules, TagKey, TagBytes(rules, file, h).value)
    {
      NoneWellTyped(rules, TagKey);
      MeasureAgreesWithDecode(rules, TagKey, TagSection(file, h).value);
    }
  }

  lemma HeaderVersion(b: seq<byte>)
    ensures DecodeHeader(b).Ok? ==> DecodeHeader(b).value.version == CURRENT_VERSION
  {
  }

  lemma NoneWellTyped(rules: ParseRules, kind: KeyKind)
    ensures WellTypedMap(rules, kind, map[])
  {
  }

  /** The tags of a header overflow exactly when its content starts before them. */
  lemma TagsOverflowExactly(rules: ParseRules, file: seq<byte>, h: ObjectHeader)
    ensures TagSection(file, h) == Err(Overflow) <==> h.contentStart < h.tagsStart
    ensures TagBytes(rules, file, h) == Err(Overflow) <==> h.contentStart < h.tagsStart
  {
    hide DecodeBlock;
  }

  /** Such a file does open: a header with crossed offsets and an empty metadata block. */
  lemma CrossedOffsetsOpen(rules: TextRules)
    ensures var h := ObjectHeader(CURRENT_VERSION, NoCompression, 34, 32, 0, 0);
            var file := EncodeHeader(h) + Zeros(2);
            OpenBytes(rules, file) == Result.Ok((h, map[])) && TagBytes(rules, file, h) == Err(Overflow)
  {
    var h := ObjectHeader(CURRENT_VERSION, NoCompression, 34, 32, 0, 0);
    var file := EncodeHeader(h) + Zeros(2);
    hide EncodeHeader, DecodeHeader;
    HeaderRoundTrip(h, []);
    assert EncodeHeader(h) + [] == EncodeHeader(h) == file[..HEADER_SIZE];
    assert file[HEADER_SIZE..h.tagsStart] == Zeros(2);
    EmptyBlock(rules, MetaKey, Zeros(2));
  }

  /** Two zero bytes are an empty block. */
  lemma EmptyBlock(rules: TextRules, kind: KeyKind, b: seq<byte>)
    requires |b| >= 2 && b[..2] == Zeros(2)
    ensures DecodeBlock(rules, kind, b) == Parsed.Ok([], 2) && MapOf([]) == map[]
  {
    CountRoundTrip(0, b[2..]);
    Pow256Values();
    assert EncodeUint(0, 2) == Zeros(2);
    assert b == EncodeUint(0, 2) + b[2..];
  }

  /** What lies between the sections is zero. */
  lemma PaddingIsZero(h: ObjectHeader, mo: seq<Entry>, to: seq<Entry>, i: nat)
    requires SectionsFit(h.Layout(), mo, to)
    requires || 32 + |EncodeBlock(mo)| <= i < h.tagsStart
             || h.tagsStart + |EncodeBlock(to)| <= i < h.contentStart
    ensures Prefix(h, mo, to)[i] == 0
  {
    hide EncodeHeader, EncodeBlock;
  }

  // ---- ranges of the content --------------------------------------------------------------------

  /** How many bytes a range request reads, or why it is refused. The last refusal is the offset in the file, which is a
      `u64` sum. */
  function RangeLength(h: ObjectHeader, offset: nat, length: Option<nat>): Result<nat, FileError> {
    if !h.compression.NoCompression? then Err(RangedReadOnCompressed)
    else if offset > h.contentLength then Err(RangeOutOfBounds(offset, offset, h.contentLength))
    else
      var available := h.contentLength - offset;
      var wanted := if length.Some? then length.value else available;
      if wanted > available then
        Err(RangeOutOfBounds(offset, if offset + wanted <= U64_MAX then offset + wanted else U64_MAX, h.contentLength))
      else if h.contentStart + offset > U64_MAX then Err(Overflow)
      else Result.Ok(wanted)
  }

  const U64_MAX: nat := 0xFFFF_FFFF_FFFF_FFFF

  /** The range lies within an uncompressed content. */
  predicate InContent(h: ObjectHeader, offset: nat, length: Option<nat>) {
    h.compression.NoCompression? && offset + (if length.Some? then length.value else 0) <= h.contentLength
  }

  /** Every other refusal, and what it reports: a range of a compressed object; an offset behind the content, as a range
      that ends where it begins; a range that begins in the content and ends behind it, with its end, or the largest
      `u64` where that is none. */
  lemma RangeRefusals(h: ObjectHeader, offset: nat, length: Option<nat>)
    ensures RangeLength(h, offset, length) == Err(RangedReadOnCompressed) <==> !h.compression.NoCompression?
    ensures h.compression.NoCompression? && offset > h.contentLength ==>
              RangeLength(h, offset, length) == Err(RangeOutOfBounds(offset, offset, h.contentLength))
    ensures h.compression.NoCompression? && offset <= h.contentLength && length.Some?
            && offset + length.value > h.contentLength ==>
              exists end: nat :: RangeLength(h, offset, length) == Err(RangeOutOfBounds(offset, end, h.contentLength))
                              && end <= 0xFFFF_FFFF_FFFF_FFFF && end <= offset + length.value
                              && (end == 0xFFFF_FFFF_FFFF_FFFF || end == offset + length.value)
  {
  }

  /** A range within the content overflows exactly when the file offset it starts at is no `u64`; where sums wrap around
      instead, it starts in front of the content. */
  lemma RangesOverflowExactly(h: ObjectHeader, offset: nat, length: Option<nat>)
    ensures RangeLength(h, offset, length) == Err(Overflow) <==>
              InContent(h, offset, length) && h.contentStart + offset > U64_MAX
    ensures RangeLength(h, offset, length) == Err(Overflow) ==>
              (h.contentStart + offset) % (U64_MAX + 1) < h.contentStart
  {
  }

  /** A file that opens and on which a range within its declared content overflows. */
  lemma OverflowingRangeOpens(rules: TextRules)
    ensures var h := ObjectHeader(CURRENT_VERSION, NoCompression, 32, 544, U64_MAX, 0);
            && OpenBytes(rules, EncodeHeader(h)) == Result.Ok((h, map[]))
            && InContent(h, U64_MAX - 100, Some(100))
            && RangeLength(h, U64_MAX - 100, Some(100)) == Err(Overflow)
            && (h.contentStart + (U64_MAX - 100)) % (U64_MAX + 1) == 443
  {
    var h := ObjectHeader(CURRENT_VERSION, NoCompression, 32, 544, U64_MAX, 0);
    hide EncodeHeader, DecodeHeader;
    HeaderRoundTrip(h, []);
    assert EncodeHeader(h) + [] == EncodeHeader(h) == EncodeHeader(h)[..HEADER_SIZE];
  }

  /** The part of a content that a range asks for: `length` bytes, or all of them, from `offset` on. */
  function Slice(content: seq<byte>, offset: nat, length: Option<nat>): seq<byte> {
    match length
    case Some(n) => Window(content, offset, n)
    case None => Drop(content, offset)
  }

  /** Ranges are slices: an accepted range has that slice of the stored content to come, whatever the file holds of it,
      and counts the bytes it was asked for, or all that are declared. A range is accepted exactly when it lies within
      an uncompressed content and its file offset is a `u64`, as every offset within a file that long is. */
  lemma RangesAreSlices(file: seq<byte>, h: ObjectHeader, offset: nat, length: Option<nat>)
    ensures RangeLength(h, offset, length).Ok? <==>
              InContent(h, offset, length) && h.contentStart + offset <= U64_MAX
    ensures |StoredContent(file, h)| == h.contentLength && |file| <= U64_MAX ==>
              (RangeLength(h, offset, length).Ok? <==> InContent(h, offset, length))
    ensures match RangeLength(h, offset, length)
            case Err(_) => true
            case Ok(n) =>
              && n == (if length.Some? then length.value else h.contentLength - offset)
              && Window(file, h.contentStart + offset, n) == Slice(StoredContent(file, h), offset, length)
  {
    DropDrop(file, h.contentStart, offset);
  }

  /** On a file that holds its whole content the slices are plain ones; the range from 0 on is the whole content. */
  lemma WholeSlices(file: seq<byte>, h: ObjectHeader, offset: nat, length: Option<nat>)
    requires |StoredContent(file, h)| == h.contentLength && RangeLength(h, offset, length).Ok?
    ensures var c := StoredContent(file, h);
            && Slice(c, offset, length) == (if length.Some? then c[offset..offset + length.value] else c[offset..])
            && Slice(c, 0, None) == c
  {
  }

  /** What `x` bytes are followed by to make up a range: `y` more, or all the rest. */
  function Longer(x: nat, y: Option<nat>): Option<nat> {
    if y.Some? then Some(x + y.value) else None
  }

  /** Adjacent ranges concatenate, the second one open-ended or not: both are accepted exactly when the range they make
      up is, the first lies in the content, and the second one's file offset is a `u64`, and together they are it. */
  lemma AdjacentRanges(content: seq<byte>, h: ObjectHeader, offset: nat, x: nat, y: Option<nat>)
    ensures RangeLength(h, offset, Some(x)).Ok? && RangeLength(h, offset + x, y).Ok?
            <==> && RangeLength(h, offset, Longer(x, y)).Ok? && offset + x <= h.contentLength
                 && h.contentStart + offset + x <= U64_MAX
    ensures Slice(content, offset, Some(x)) + Slice(content, offset + x, y) == Slice(content, offset, Longer(x, y))
  {
    DropDrop(content, offset, x);
    if y.Some? {
      WindowsConcatenate(content, offset, x, y.value);
    }
  }

  /** The offset conjunct matters: a range is accepted whole and its second part overflows. */
  lemma SecondRangeOverflows()
    ensures var h := ObjectHeader(CURRENT_VERSION, NoCompression, 32, 544, U64_MAX, 0);
            && RangeLength(h, 0, Some(U64_MAX - 50)) == Result.Ok(U64_MAX - 50)
            && RangeLength(h, 0, Some(U64_MAX - 100)) == Result.Ok(U64_MAX - 100)
            && RangeLength(h, U64_MAX - 100, Some(50)) == Err(Overflow)
  {
  }

  /** The count a tag section starts with is the number of tags of the object. */
  lemma TagCountIsNumberOfTags(file: seq<byte>, h: ObjectHeader, m: Map, t: Map, content: seq<byte>)
    requires IsObject(file, h, m, t, content)
    ensures h.tagsStart + 2 <= h.contentStart <= |file| && FromLe(Drop(file, h.tagsStart)[..2]) == |t|
  {
    hide EncodeHeader, LegalMap, Prefix;
    var mo, to :| IsImage(file, h, m, t, content, mo, to);
    PrefixParts(h, mo, to, content);
    MapOfDistinct(to);
    assert LegalMap(t);
    TagsLegalCount(t);
    CountRoundTrip(|to|, EncodeEntries(to));
    assert |file| >= h.contentStart;
    assert file[h.tagsStart..h.contentStart][..2] == Drop(file, h.tagsStart)[..2];
    assert file[h.tagsStart..h.contentStart][..2] == EncodeBlock(to)[..2];
    assert EncodeBlock(to)[..2] == EncodeUint(|to|, 2);
    Pow256Values();
    FromLeToLe(|to|, 2);
  }

  lemma TagsLegalCount(t: Map)
    requires LegalMap(t)
    ensures |t| <= MAX_PREFIXED_LENGTH
  {
  }
}
