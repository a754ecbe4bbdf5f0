/** The codec as it steps streams: writers, decoders, the measurer and the single-key search, each against its
    specification on byte strings. */
module Codec {
  import opened Outcome
  import opened Bytes
  import opened Values
  import opened Blocks
  import opened Streams

  /** A stream step did what decoding the bytes in front of it says: same value and bytes used, or same error. */
  ghost predicate Reads<T(!new)>(r: Result<T, EncodingError>, moved: int, parsed: Parsed<T>) {
    match parsed
    case Ok(v, n) => r == Result.Ok(v) && moved == n
    case Fail(e) => r == Err(e)
  }

  // ---- decoding ---------------------------------------------------------------------------------

  method ReadUint(r: ByteReader, w: nat) returns (n: Result<nat, EncodingError>)
    modifies r
    ensures Reads(n, r.pos - old(r.pos), DecodeUint(old(r.Rest()), w))
  {
    var b := r.ReadExact(w);
    match b
    case Err(e) => return Err(e);
    case Ok(b) => return Result.Ok(FromLe(b));
  }

  /** `Vec<u8>`: a length, then byte after byte. */
  method ReadByteVec(r: ByteReader) returns (b: Result<seq<byte>, EncodingError>)
    modifies r
    ensures Reads(b, r.pos - old(r.pos), DecodeBlob(old(r.Rest())))
  {
    var length := ReadUint(r, 2);
    if length.Err? {
      return Err(length.error);
    }
    DropDrop(r.data, old(r.pos), 2);
    var got: seq<byte> := [];
    while |got| < length.value
      invariant |got| <= length.value && 2 + |got| <= |old(r.Rest())|
      invariant got == old(r.Rest())[2..2 + |got|]
      invariant r.pos == old(r.pos) + 2 + |got|
    {
      DropDrop(r.data, old(r.pos), 2 + |got|);
      var one := r.ReadExact(1);
      if one.Err? {
        return Err(one.error);
      }
      got := got + one.value;
    }
    return Result.Ok(got);
  }

  /** The async `read_length_prefixed`: a length, then one exact read. Strings are read this way too. */
  method ReadLengthPrefixed(r: ByteReader) returns (b: Result<seq<byte>, EncodingError>)
    modifies r
    ensures Reads(b, r.pos - old(r.pos), DecodeBlob(old(r.Rest())))
  {
    var length := ReadUint(r, 2);
    if length.Err? {
      return Err(length.error);
    }
    ghost var s := old(r.Rest());
    DropDrop(r.data, old(r.pos), 2);
    assert r.Rest() == s[2..];
    b := r.ReadExact(length.value);
    assert b.Ok? ==> s[2..][..length.value] == s[2..2 + length.value];
  }

  method ReadDate(r: ByteReader) returns (d: Result<RawDate, EncodingError>)
    modifies r
    ensures var s := old(r.Rest());
            Reads(d, r.pos - old(r.pos), if |s| < 4 then Fail(SHORT) else Parsed.Ok(DecodeDate(s[..4]), 4))
  {
    ghost var s := r.Rest();
    var year := ReadUint(r, 2);
    if year.Err? { return Err(year.error); }
    DropDrop(r.data, old(r.pos), 2);
    var month := ReadUint(r, 1);
    if month.Err? { return Err(month.error); }
    DropDrop(r.data, old(r.pos), 3);
    var day := ReadUint(r, 1);
    if day.Err? { return Err(day.error); }
    assert s[..4][..2] == s[..2] && s[..4][2..3] == s[2..][..1] && s[..4][3..4] == s[3..][..1];
    Pow256Values();
    ToLeFromLe(s[..2]);
    ToLeFromLe(s[2..][..1]);
    ToLeFromLe(s[3..][..1]);
    return Result.Ok(RawDate(year.value, month.value, day.value));
  }

  method ReadTime(r: ByteReader) returns (t: Result<RawTime, EncodingError>)
    modifies r
    ensures var s := old(r.Rest());
            Reads(t, r.pos - old(r.pos), if |s| < 8 then Fail(SHORT) else Parsed.Ok(DecodeTime(s[..8]), 8))
  {
    ghost var s := r.Rest();
    var seconds := ReadUint(r, 4);
    if seconds.Err? { return Err(seconds.error); }
    DropDrop(r.data, old(r.pos), 4);
    var nanos := ReadUint(r, 4);
    if nanos.Err? { return Err(nanos.error); }
    assert s[..8][..4] == s[..4] && s[..8][4..8] == s[4..][..4];
    Pow256Values();
    ToLeFromLe(s[..4]);
    ToLeFromLe(s[4..][..4]);
    return Result.Ok(RawTime(seconds.value, nanos.value));
  }

  method ReadTimeZone(r: ByteReader) returns (z: Result<RawTimeZone, EncodingError>)
    modifies r
    ensures var s := old(r.Rest());
            Reads(z, r.pos - old(r.pos), if |s| < 4 then Fail(SHORT) else Parsed.Ok(DecodeTimeZone(s[..4]), 4))
  {
    var offset := ReadUint(r, 4);
    if offset.Err? { return Err(offset.error); }
    Pow256Values();
    ToLeFromLe(old(r.Rest())[..4]);
    return Result.Ok(RawTimeZone(Signed(offset.value, 4)));
  }

  method ReadDateTime(r: ByteReader) returns (d: Result<RawDateTime, EncodingError>)
    modifies r
    ensures var s := old(r.Rest());
            Reads(d, r.pos - old(r.pos), if |s| < 16 then Fail(SHORT) else Parsed.Ok(DecodeDateTime(s[..16]), 16))
  {
    hide DecodeDate, DecodeTime, DecodeTimeZone;
    ghost var s := r.Rest();
    var date := ReadDate(r);
    if date.Err? { return Err(date.error); }
    DropDrop(r.data, old(r.pos), 4);
    var time := ReadTime(r);
    if time.Err? { return Err(time.error); }
    DropDrop(r.data, old(r.pos), 12);
    var zone := ReadTimeZone(r);
    if zone.Err? { return Err(zone.error); }
    assert s[..16][..4] == s[..4] && s[..16][4..12] == s[4..][..8] && s[..16][12..16] == s[12..][..4];
    return Result.Ok(RawDateTime(date.value, time.value, zone.value));
  }

  method ReadString(rules: TextRules, r: ByteReader) returns (v: Result<seq<byte>, EncodingError>)
    modifies r
    ensures Reads(v, r.pos - old(r.pos), DecodeKey(rules, TagKey, old(r.Rest())))
  {
    var b := ReadLengthPrefixed(r);
    if b.Err? { return Err(b.error); }
    if rules.utf8(b.value) {
      return Result.Ok(b.value);
    }
    return Err(InvalidUtf8);
  }

  method ReadBool(r: ByteReader) returns (v: Result<ValueType, EncodingError>)
    modifies r
    ensures var s := old(r.Rest());
            && (s == [] ==> v == Err(SHORT))
            && (s != [] ==> v == DecodeBool(s[0]) && r.pos == old(r.pos) + 1)
  {
    var b := r.ReadExact(1);
    match b
    case Err(e) => return Err(e);
    case Ok(b) => return DecodeBool(b[0]);
  }

  method ReadNumber(r: ByteReader, key: byte) returns (v: Result<ValueType, EncodingError>)
    requires key <= 9
    modifies r
    ensures var s := old(r.Rest()); var w := FixedWidth(key);
            Reads(v, r.pos - old(r.pos),
                  if |s| < w then Fail(SHORT) else Parsed.Ok(NumberOf(key, Uint(s[..w])), w))
  {
    var w := FixedWidth(key);
    ghost var s := r.Rest();
    var n := ReadUint(r, w);
    if n.Err? {
      return Err(n.error);
    }
    ToLeFromLe(s[..w]);
    assert n.value == Uint(s[..w]);
    v := Result.Ok(NumberOf(key, n.value));
    assert |s| >= w && r.pos - old(r.pos) == w;
  }

  /** `ValueType::read_from_reader`: the type key, then the inner type's own reader. */
  method ReadValue(rules: TextRules, r: ByteReader) returns (v: Result<ValueType, EncodingError>)
    modifies r
    ensures Reads(v, r.pos - old(r.pos), DecodeValue(rules, old(r.Rest())))
  {
    hide DecodeBlob, NumberOf, DecodeDate, DecodeTime, DecodeDateTime;
    ghost var s := r.Rest();
    var key := ReadTypeKey(r);
    if key.Err? { return Err(key.error); }
    match key.value {
      case 12 =>
        var text := ReadString(rules, r);
        if text.Err? { return Err(text.error); }
        return Result.Ok(String(text.value));
      case 11 =>
        var block := ReadByteVec(r);
        if block.Err? { return Err(block.error); }
        return Result.Ok(Bytes(block.value));
      case 10 =>
        v := ReadBool(r);
      case 13 =>
        var date := ReadDate(r);
        if date.Err? { return Err(date.error); }
        return Result.Ok(Date(date.value));
      case 14 =>
        var time := ReadTime(r);
        if time.Err? { return Err(time.error); }
        return Result.Ok(Time(time.value));
      case 16 =>
        var dateTime := ReadDateTime(r);
        if dateTime.Err? { return Err(dateTime.error); }
        return Result.Ok(DateTime(dateTime.value));
      case other =>
        if other > 9 { return Err(UnknownTypeKey(other)); }
        v := ReadNumber(r, other);
    }
  }

  method ReadTypeKey(r: ByteReader) returns (key: Result<byte, EncodingError>)
    modifies r
    ensures var s := old(r.Rest());
            && (s == [] ==> key == Err(SHORT))
            && (s != [] ==> key == Result.Ok(s[0]) && r.pos == old(r.pos) + 1 && r.Rest() == s[1..])
  {
    var b := r.ReadExact(1);
    match b
    case Err(e) => return Err(e);
    case Ok(b) => return Result.Ok(b[0]);
  }

  method ReadKey(rules: TextRules, kind: KeyKind, r: ByteReader) returns (k: Result<seq<byte>, EncodingError>)
    modifies r
    ensures Reads(k, r.pos - old(r.pos), DecodeKey(rules, kind, old(r.Rest())))
  {
    if kind.TagKey? {
      k := ReadString(rules, r);
    } else {
      var content := ReadByteVec(r);
      if content.Err? { return Err(content.error); }
      match rules.headerName(content.value) {
        case Some(name) => return Result.Ok(name);
        case None => return Err(OtherDecodingError);
      }
    }
  }

  /** One key and its value. */
  method ReadEntry(rules: TextRules, kind: KeyKind, r: ByteReader) returns (e: Result<Entry, EncodingError>)
    modifies r
    ensures Reads(e, r.pos - old(r.pos), DecodeEntry(rules, kind, old(r.Rest())))
    ensures e.Ok? ==> r.Rest() == Drop(old(r.Rest()), r.pos - old(r.pos))
  {
    hide DecodeKey, DecodeValue;
    var key := ReadKey(rules, kind, r);
    if key.Err? { return Err(key.error); }
    DropDrop(r.data, old(r.pos), r.pos - old(r.pos));
    var value := ReadValue(rules, r);
    if value.Err? { return Err(value.error); }
    DropDrop(r.data, old(r.pos), r.pos - old(r.pos));
    return Result.Ok(Entry(key.value, value.value));
  }

  /** Decoding `count` entries after `done`: the rest of the work decides the whole. */
  ghost function Continue(done: seq<Entry>, used: nat, rest: Parsed<seq<Entry>>): Parsed<seq<Entry>> {
    match rest
    case Fail(e) => Fail(e)
    case Ok(es, n) => Parsed.Ok(done + es, used + n)
  }

  lemma ContinueStep(rules: TextRules, kind: KeyKind, done: seq<Entry>, used: nat, s: seq<byte>, count: nat)
    requires count > 0
    ensures match DecodeEntry(rules, kind, s)
            case Fail(e) => Continue(done, used, DecodeEntries(rules, kind, s, count)) == Fail(e)
            case Ok(e, n) =>
              Continue(done, used, DecodeEntries(rules, kind, s, count))
              == Continue(done + [e], used + n, DecodeEntries(rules, kind, Drop(s, n), count - 1))
  {
    hide DecodeEntry;
    if DecodeEntries(rules, kind, s, count).Ok? {
      var e := DecodeEntry(rules, kind, s).value;
      var n := DecodeEntry(rules, kind, s).used;
      var es := DecodeEntries(rules, kind, Drop(s, n), count - 1).value;
      assert done + ([e] + es) == done + [e] + es;
    }
  }

  lemma ContinueNone(rules: TextRules, kind: KeyKind, done: seq<Entry>, used: nat, s: seq<byte>, p: Parsed<seq<Entry>>)
    ensures Continue(done, used, DecodeEntries(rules, kind, s, 0)) == Parsed.Ok(done, used)
    ensures Continue([], 0, p) == p
  {
    assert done + [] == done;
    assert p.Ok? ==> [] + p.value == p.value;
  }

  lemma MapOfSnoc(es: seq<Entry>, e: Entry)
    ensures MapOf([]) == map[]
    ensures MapOf(es + [e]) == MapOf(es)[e.key := e.value]
  {
    assert (es + [e])[..|es|] == es;
  }

  lemma EntriesSizeSnoc(es: seq<Entry>, e: Entry)
    ensures EntriesSize(es + [e]) == EntriesSize(es) + EntrySize(e)
  {
    assert (es + [e])[..|es|] == es;
  }

  /** `Tags::read_from_reader`: each pair is inserted, so a later duplicate replaces an earlier one. */
  method ReadTags(rules: TextRules, kind: KeyKind, r: ByteReader) returns (m: Result<Map, EncodingError>)
    modifies r
    ensures match DecodeBlock(rules, kind, old(r.Rest()))
            case Fail(e) => m == Err(e)
            case Ok(es, n) => m == Result.Ok(MapOf(es)) && r.pos == old(r.pos) + n
  {
    hide DecodeEntry, DecodeEntries, DecodeUint, Continue, MapOf, Drop;
    var count := ReadUint(r, 2);
    if count.Err? { return Err(count.error); }
    DropDrop(r.data, old(r.pos), r.pos - old(r.pos));
    ghost var start := r.pos;
    ghost var whole := DecodeEntries(rules, kind, r.Rest(), count.value);
    var tags: Map := map[];
    ghost var done: seq<Entry> := [];
    ContinueNone(rules, kind, [], 0, [], whole);
    assert MapOf(done) == map[] by { MapOfSnoc([], Entry([], U8(0))); }
    for i := 0 to count.value
      invariant |done| == i && tags == MapOf(done)
      invariant r.pos >= start
      invariant whole == Continue(done, r.pos - start, DecodeEntries(rules, kind, r.Rest(), count.value - i))
    {
      ContinueStep(rules, kind, done, r.pos - start, r.Rest(), count.value - i);
      var entry := ReadEntry(rules, kind, r);
      if entry.Err? { return Err(entry.error); }
      tags := tags[entry.value.key := entry.value.value];
      MapOfSnoc(done, entry.value);
      done := done + [entry.value];
    }
    ContinueNone(rules, kind, done, r.pos - start, r.Rest(), whole);
    return Result.Ok(tags);
  }

  // ---- the async twins --------------------------------------------------------------------------

  /** `ValueType::read_from_async_reader`, dispatching by hand: the time types are read whole and parsed from
      the buffer. Its contract is that of `ReadValue`, so the two agree on every byte string. */
  method ReadValueAsync(rules: TextRules, r: ByteReader) returns (v: Result<ValueType, EncodingError>)
    modifies r
    ensures Reads(v, r.pos - old(r.pos), DecodeValue(rules, old(r.Rest())))
  {
    hide DecodeBlob, NumberOf, DecodeDate, DecodeTime, DecodeDateTime;
    ghost var s := r.Rest();
    var key := ReadTypeKey(r);
    if key.Err? { return Err(key.error); }
    if key.value == 12 {
      var text := ReadString(rules, r);
      if text.Err? { return Err(text.error); }
      return Result.Ok(String(text.value));
    } else if key.value == 11 {
      var block := ReadLengthPrefixed(r);
      if block.Err? { return Err(block.error); }
      return Result.Ok(Bytes(block.value));
    } else if key.value == 10 {
      v := ReadBool(r);
    } else if key.value <= 9 {
      v := ReadNumber(r, key.value);
    } else if key.value in {13, 14, 16} {
      var buffer := r.ReadExact(FixedWidth(key.value));
      if buffer.Err? { return Err(buffer.error); }
      v := ParseTimeType(key.value, buffer.value);
    } else {
      return Err(UnknownTypeKey(key.value));
    }
  }

  /** `read_from_bytes` of a date or time over a full buffer. */
  method ParseTimeType(key: byte, buffer: seq<byte>) returns (v: Result<ValueType, EncodingError>)
    requires key in {13, 14, 16} && |buffer| == FixedWidth(key)
    ensures v == DecodeFixed(key, buffer)
  {
    hide DecodeDate, DecodeTime, DecodeDateTime;
    var r := new ByteReader(buffer);
    assert r.Rest() == buffer && buffer[..|buffer|] == buffer;
    if key == 13 {
      var d := ReadDate(r);
      return Result.Ok(Date(d.value));
    } else if key == 14 {
      var t := ReadTime(r);
      return Result.Ok(Time(t.value));
    } else {
      var d := ReadDateTime(r);
      return Result.Ok(DateTime(d.value));
    }
  }

  /** The async block decoder of `Tags`; only string keys have an async reader. */
  method ReadTagsAsync(rules: TextRules, kind: KeyKind, r: ByteReader) returns (m: Result<Map, EncodingError>)
    requires kind.TagKey?
    modifies r
    ensures match DecodeBlock(rules, kind, old(r.Rest()))
            case Fail(e) => m == Err(e)
            case Ok(es, n) => m == Result.Ok(MapOf(es)) && r.pos == old(r.pos) + n
  {
    hide DecodeEntry, DecodeEntries, DecodeUint, Continue, MapOf, Drop;
    var count := ReadUint(r, 2);
    if count.Err? { return Err(count.error); }
    DropDrop(r.data, old(r.pos), r.pos - old(r.pos));
    ghost var start := r.pos;
    ghost var whole := DecodeEntries(rules, kind, r.Rest(), count.value);
    var tags: Map := map[];
    ghost var done: seq<Entry> := [];
    ContinueNone(rules, kind, [], 0, [], whole);
    assert MapOf(done) == map[] by { MapOfSnoc([], Entry([], U8(0))); }
    for i := 0 to count.value
      invariant |done| == i && tags == MapOf(done)
      invariant r.pos >= start
      invariant whole == Continue(done, r.pos - start, DecodeEntries(rules, kind, r.Rest(), count.value - i))
    {
      ContinueStep(rules, kind, done, r.pos - start, r.Rest(), count.value - i);
      var entry := ReadEntryAsync(rules, kind, r);
      if entry.Err? { return Err(entry.error); }
      tags := tags[entry.value.key := entry.value.value];
      MapOfSnoc(done, entry.value);
      done := done + [entry.value];
    }
    ContinueNone(rules, kind, done, r.pos - start, r.Rest(), whole);
    return Result.Ok(tags);
  }

  method ReadKeyAsync(rules: TextRules, kind: KeyKind, r: ByteReader) returns (k: Result<seq<byte>, EncodingError>)
    requires kind.TagKey?
    modifies r
    ensures Reads(k, r.pos - old(r.pos), DecodeKey(rules, kind, old(r.Rest())))
  {
    k := ReadString(rules, r);
  }

  method ReadEntryAsync(rules: TextRules, kind: KeyKind, r: ByteReader) returns (e: Result<Entry, EncodingError>)
    requires kind.TagKey?
    modifies r
    ensures Reads(e, r.pos - old(r.pos), DecodeEntry(rules, kind, old(r.Rest())))
    ensures e.Ok? ==> r.Rest() == Drop(old(r.Rest()), r.pos - old(r.pos))
  {
    hide DecodeKey, DecodeValue;
    var key := ReadKeyAsync(rules, kind, r);
    if key.Err? { return Err(key.error); }
    DropDrop(r.data, old(r.pos), r.pos - old(r.pos));
    var value := ReadValueAsync(rules, r);
    if value.Err? { return Err(value.error); }
    DropDrop(r.data, old(r.pos), r.pos - old(r.pos));
    return Result.Ok(Entry(key.value, value.value));
  }

  // ---- measuring and searching ------------------------------------------------------------------

  /** `read_size` of a length-prefixed type: reads the prefix and leaves the cursor behind it, not behind the
      value. */
  method MeasurePrefixed(r: ByteReader) returns (n: Result<nat, EncodingError>)
    modifies r
    ensures n == MeasureKey(old(r.Rest()))
    ensures n.Ok? ==> r.pos == old(r.pos) + 2
  {
    var length := ReadUint(r, 2);
    match length
    case Err(e) => return Err(e);
    case Ok(l) => return Result.Ok(l + 2);
  }

  /** `ValueType::read_size`: the size is right, but the cursor stops behind the type key, or behind the length
      prefix for strings and byte blocks. */
  method MeasureValueAt(r: ByteReader) returns (n: Result<nat, EncodingError>)
    modifies r
    ensures n == MeasureValue(old(r.Rest()))
    ensures n.Ok? ==> r.pos == old(r.pos) + if old(r.Rest())[0] in {11, 12} then 3 else 1
  {
    var key := ReadTypeKey(r);
    if key.Err? { return Err(key.error); }
    if key.value in {11, 12} {
      var inner := MeasurePrefixed(r);
      match inner
      case Err(e) => return Err(e);
      case Ok(size) => return Result.Ok(size + 1);
    } else if FixedWidth(key.value) == 0 {
      return Err(UnknownTypeKey(key.value));
    } else {
      return Result.Ok(FixedWidth(key.value) + 1);
    }
  }

  ghost function Plus(total: nat, rest: Result<nat, EncodingError>): Result<nat, EncodingError> {
    match rest
    case Err(e) => Err(e)
    case Ok(n) => Result.Ok(total + n)
  }

  lemma PlusStep(s: seq<byte>, total: nat, count: nat)
    requires count > 0
    ensures match MeasureKey(Drop(s, total))
            case Err(e) => Plus(total, MeasureEntries(Drop(s, total), count)) == Err(e)
            case Ok(k) =>
              match MeasureValue(Drop(s, total + k))
              case Err(e) => Plus(total, MeasureEntries(Drop(s, total), count)) == Err(e)
              case Ok(v) =>
                Plus(total, MeasureEntries(Drop(s, total), count))
                == Plus(total + k + v, MeasureEntries(Drop(s, total + k + v), count - 1))
  {
    hide MeasureKey, MeasureValue;
    if MeasureKey(Drop(s, total)).Ok? {
      var k := MeasureKey(Drop(s, total)).value;
      DropDrop(s, total, k);
      if MeasureValue(Drop(s, total + k)).Ok? {
        DropDrop(s, total, k + MeasureValue(Drop(s, total + k)).value);
      }
    }
  }

  lemma PlusNone(s: seq<byte>, total: nat)
    ensures Plus(total, MeasureEntries(s, 0)) == Result.Ok(total)
  {
  }

  /** `Tags::read_size`: absolute seeks put the cursor behind each key and value, and at the end behind the block. */
  method MeasureTags(r: ByteReader) returns (n: Result<nat, EncodingError>)
    modifies r
    ensures n == MeasureBlock(old(r.Rest()))
    ensures n.Ok? ==> r.pos == old(r.pos) + n.value
  {
    hide MeasureKey, MeasureValue, MeasureEntries, DecodeUint, Drop;
    ghost var s := r.Rest();
    var blockStart := r.pos;
    var count := ReadUint(r, 2);
    if count.Err? { return Err(count.error); }
    var total := 2;
    DropDrop(r.data, blockStart, total);
    assert DecodeUint(s, 2).used == 2 by { UintUses(s, 2); }
    for i := 0 to count.value
      invariant r.pos == blockStart + total && r.Rest() == Drop(s, total)
      invariant MeasureBlock(s) == Plus(total, MeasureEntries(Drop(s, total), count.value - i))
    {
      PlusStep(s, total, count.value - i);
      var keySize := MeasurePrefixed(r);
      if keySize.Err? { return Err(keySize.error); }
      total := total + keySize.value;
      r.SeekStart(blockStart + total);
      DropDrop(r.data, blockStart, total);
      var valueSize := MeasureValueAt(r);
      if valueSize.Err? { return Err(valueSize.error); }
      total := total + valueSize.value;
      r.SeekStart(blockStart + total);
      DropDrop(r.data, blockStart, total);
    }
    PlusNone(Drop(s, total), total);
    return Result.Ok(total);
  }

  lemma UintUses(s: seq<byte>, w: nat)
    ensures DecodeUint(s, w).Ok? ==> DecodeUint(s, w).used == w
  {
  }

  lemma FindStep(rules: TextRules, kind: KeyKind, s: seq<byte>, count: nat, key: seq<byte>)
    requires count > 0
    ensures match DecodeEntry(rules, kind, s)
            case Fail(e) => FindEntries(rules, kind, s, count, key) == Err(e)
            case Ok(entry, n) =>
              FindEntries(rules, kind, s, count, key)
              == if entry.key == key then Result.Ok(Some(entry.value))
                 else FindEntries(rules, kind, Drop(s, n), count - 1, key)
  {
    hide DecodeKey, DecodeValue;
  }

  lemma FindNone(rules: TextRules, kind: KeyKind, s: seq<byte>, key: seq<byte>)
    ensures FindEntries(rules, kind, s, 0, key) == Result.Ok(None)
  {
  }

  /** `find_from_reader`: `skip` of a value is to decode and discard it. */
  method FindTag(rules: TextRules, kind: KeyKind, r: ByteReader, key: seq<byte>)
    returns (v: Result<Option<ValueType>, EncodingError>)
    modifies r
    ensures v == FindBlock(rules, kind, old(r.Rest()), key)
  {
    hide DecodeEntry, FindEntries, DecodeUint, Drop;
    ghost var s := r.Rest();
    var count := ReadUint(r, 2);
    if count.Err? { return Err(count.error); }
    DropDrop(r.data, old(r.pos), r.pos - old(r.pos));
    for i := 0 to count.value
      invariant FindBlock(rules, kind, s, key) == FindEntries(rules, kind, r.Rest(), count.value - i, key)
    {
      FindStep(rules, kind, r.Rest(), count.value - i, key);
      var entry := ReadEntry(rules, kind, r);
      if entry.Err? { return Err(entry.error); }
      if entry.value.key == key {
        return Result.Ok(Some(entry.value.value));
      }
    }
    FindNone(rules, kind, r.Rest(), key);
    return Result.Ok(None);
  }

  // ---- writing ----------------------------------------------------------------------------------

  /** `Tags::size()`: sums the pairs in whatever order the map yields them. */
  method SizeOf(m: Map) returns (n: nat)
    ensures n == MapSize(m)
  {
    n := 0;
    var left := m;
    while left != map[]
      invariant n + PairsSize(left) == PairsSize(m)
      decreases |left|
    {
      var k :| k in left;
      PairsSizePick(left, k);
      n := n + EntrySize(Entry(k, left[k]));
      left := left - {k};
    }
    n := n + 2;
  }

  /** The cursor took `data`: it lies at the old position, nothing else of the buffer changed. */
  twostate predicate Wrote(w: SliceCursor, data: seq<byte>)
    reads w, w.buffer
  {
    && w.pos == old(w.pos) + |data|
    && w.Bytes() == Overwrite(old(w.Bytes()), old(w.pos), data)
  }

  /** The two limits a map can exceed: the length of a key, string or block, and the count of its entries. */
  predicate TooLong(e: EncodingError) {
    e.TypeTooLarge? || e.TooManyEntries?
  }

  method WriteBlob(b: seq<byte>, tooLong: EncodingError, w: SliceCursor) returns (r: Result<(), EncodingError>)
    requires w.pos <= w.buffer.Length
    modifies w, w.buffer
    ensures r.Ok? <==> |b| <= MAX_PREFIXED_LENGTH && old(w.pos) + 2 + |b| <= w.buffer.Length
    ensures r.Ok? ==> Wrote(w, EncodeBlob(b))
    ensures |b| > MAX_PREFIXED_LENGTH ==> r == Err(tooLong)
    ensures r.Err? && old(w.pos) + 2 + |b| <= w.buffer.Length ==> r.error == tooLong
  {
    if |b| > MAX_PREFIXED_LENGTH {
      return Err(tooLong);
    }
    r := w.WriteAll(EncodeUint(|b|, 2));
    if r.Err? { return; }
    r := w.WriteAll(b);
    OverwriteTwice(old(w.Bytes()), old(w.pos), EncodeUint(|b|, 2), b);
  }

  /** `ValueType::write_to_writer`: the type key, then the value; succeeds exactly when the value is legal and
      there is room. */
  method WriteValue(v: ValueType, w: SliceCursor) returns (r: Result<(), EncodingError>)
    requires w.pos <= w.buffer.Length
    modifies w, w.buffer
    ensures r.Ok? <==> Legal(v) && old(w.pos) + Size(v) <= w.buffer.Length
    ensures r.Ok? ==> Wrote(w, EncodeValue(v))
    ensures r.Err? && old(w.pos) + Size(v) <= w.buffer.Length ==> TooLong(r.error)
  {
    hide EncodeBlob, EncodeDate, EncodeTime, EncodeDateTime, EncodeInt, EncodeUint, Overwrite;
    r := w.WriteAll([TypeKey(v)]);
    if r.Err? { return; }
    match v {
      case String(b) => r := WriteBlob(b, TypeTooLarge(|b|), w);
      case Bytes(b) => r := WriteBlob(b, TooManyEntries(|b|), w);
      case _ => r := w.WriteAll(Payload(v));
    }
    OverwriteTwice(old(w.Bytes()), old(w.pos), [TypeKey(v)], Payload(v));
  }

  method WriteEntry(e: Entry, w: SliceCursor) returns (r: Result<(), EncodingError>)
    requires w.pos <= w.buffer.Length
    modifies w, w.buffer
    ensures r.Ok? <==> |e.key| <= MAX_PREFIXED_LENGTH && Legal(e.value) && old(w.pos) + EntrySize(e) <= w.buffer.Length
    ensures r.Ok? ==> Wrote(w, EncodeEntry(e))
    ensures r.Err? && old(w.pos) + EntrySize(e) <= w.buffer.Length ==> TooLong(r.error)
  {
    hide Legal, Size, EncodeValue;
    r := WriteBlob(e.key, TypeTooLarge(|e.key|), w);
    if r.Err? { return; }
    r := WriteValue(e.value, w);
    OverwriteTwice(old(w.Bytes()), old(w.pos), EncodeBlob(e.key), EncodeValue(e.value));
  }

  /** `order` lists the pairs of `m` that are not `left` to write; they were all legal. */
  ghost predicate Partial(m: Map, left: Map, order: seq<Entry>) {
    && Distinct(order) && MapOf(order).Keys !! left.Keys && MapOf(order) + left == m
    && EntriesSize(order) + PairsSize(left) == PairsSize(m)
    && forall k :: k in m && k !in left ==> |k| <= MAX_PREFIXED_LENGTH && Legal(m[k])
  }

  lemma PartialStart(m: Map)
    ensures Partial(m, m, []) && EntriesSize([]) == 0 && EncodeEntries([]) == []
  {
    assert MapOf([]) + m == m;
  }

  lemma PartialStep(m: Map, left: Map, order: seq<Entry>, k: seq<byte>)
    requires Partial(m, left, order) && k in left
    ensures k in m && m[k] == left[k]
    ensures EntriesSize(order) + EntrySize(Entry(k, m[k])) <= PairsSize(m)
    ensures |k| <= MAX_PREFIXED_LENGTH && Legal(m[k]) ==> Partial(m, left - {k}, order + [Entry(k, m[k])])
  {
    hide Legal, EntrySize, MapOf, Distinct, PairsSize, EntriesSize;
    PairsSizePick(left, k);
    DistinctExtend(order, Entry(k, m[k]));
    EntriesSizeSnoc(order, Entry(k, m[k]));
    var done := MapOf(order + [Entry(k, m[k])]);
    assert done + (left - {k}) == m;
  }

  lemma PartialDone(m: Map, order: seq<Entry>)
    requires Partial(m, map[], order) && |m| <= MAX_PREFIXED_LENGTH
    ensures LegalMap(m) && Enumerates(order, m) && EntriesSize(order) == PairsSize(m) && |order| == |m|
  {
    hide Legal;
    assert MapOf(order) + map[] == MapOf(order);
    EnumerationSize(order, m);
  }

  /** `Tags::write_to_writer`: the count, then the pairs in whatever order the map yields them. It succeeds exactly
      when every length and the count fit their prefixes and the block fits the buffer. */
  method WriteTags(m: Map, w: SliceCursor) returns (r: Result<(), EncodingError>, ghost order: seq<Entry>)
    requires w.pos <= w.buffer.Length
    modifies w, w.buffer
    ensures r.Ok? <==> LegalMap(m) && old(w.pos) + MapSize(m) <= w.buffer.Length
    ensures r.Ok? ==> Enumerates(order, m) && Wrote(w, EncodeBlock(order))
    ensures |m| > MAX_PREFIXED_LENGTH ==> r == Err(TooManyEntries(|m|))
    ensures r.Err? && old(w.pos) + MapSize(m) <= w.buffer.Length ==> TooLong(r.error)
  {
    hide Legal, EntrySize, EncodeEntry, EncodeEntries, EntriesSize, PairsSize, Overwrite, EncodeUint, MapOf, Partial,
      Distinct, Written, w.Bytes;
    order := [];
    if |m| > MAX_PREFIXED_LENGTH {
      return Err(TooManyEntries(|m|)), order;
    }
    ghost var base, at := w.Bytes(), w.pos;
    r := w.WriteAll(EncodeUint(|m|, 2));
    if r.Err? { return; }
    var left := m;
    PartialStart(m);
    WrittenFacts(base, at, m, order);
    while left != map[]
      invariant Partial(m, left, order)
      invariant w.pos == at + 2 + EntriesSize(order) <= w.buffer.Length
      invariant w.Bytes() == Written(base, at, m, order)
      invariant r.Ok?
      decreases |left|
    {
      var k :| k in left;
      var e := Entry(k, left[k]);
      PartialStep(m, left, order, k);
      WrittenNext(base, at, m, order, e, w.Bytes(), w.pos);
      r := WriteEntry(e, w);
      if r.Err? { return; }
      order := order + [e];
      left := left - {k};
    }
    PartialDone(m, order);
    WrittenFacts(base, at, m, order);
  }

  /** The buffer after the count of `m` and these entries were written at `at`. */
  ghost function Written(base: seq<byte>, at: nat, m: Map, order: seq<Entry>): seq<byte> {
    Overwrite(base, at, EncodeUint(|m|, 2) + EncodeEntries(order))
  }

  lemma WrittenFacts(base: seq<byte>, at: nat, m: Map, order: seq<Entry>)
    ensures Written(base, at, m, []) == Overwrite(base, at, EncodeUint(|m|, 2))
    ensures |order| == |m| ==> Written(base, at, m, order) == Overwrite(base, at, EncodeBlock(order))
  {
    EncodeNone();
    assert EncodeUint(|m|, 2) + [] == EncodeUint(|m|, 2);
  }

  lemma WrittenNext(base: seq<byte>, at: nat, m: Map, order: seq<Entry>, e: Entry, now: seq<byte>, pos: nat)
    requires now == Written(base, at, m, order) && pos == at + 2 + EntriesSize(order)
    ensures EntriesSize(order + [e]) == EntriesSize(order) + EntrySize(e)
    ensures Overwrite(now, pos, EncodeEntry(e)) == Written(base, at, m, order + [e])
  {
    hide EncodeEntry, EntrySize, Overwrite;
    var count := EncodeUint(|m|, 2);
    assert (order + [e])[..|order|] == order;
    OverwriteTwice(base, at, count + EncodeEntries(order), EncodeEntry(e));
    assert count + EncodeEntries(order) + EncodeEntry(e) == count + (EncodeEntries(order) + EncodeEntry(e));
  }
}
