/** The in-place update against the atomic one. */
module Updates {
  import opened Outcome
  import opened Bytes
  import opened Values
  import opened Blocks
  import opened Layout
  import opened Objects
  import opened Disks
  import opened FileSystems
  import opened Prefixes
  import opened ObjectFiles

  /** When the sections fit in front of the content, the atomic setter lays the object out just as the in-place one. */
  lemma SameLayout(name: string, file: seq<byte>, h: ObjectHeader, m: Map, t: Map, l: SectionLayout)
    requires PlannedInPlace(h, m, t).Fits? && FinalLayout(AtomicPlan(name, file, h, m, t), l)
    ensures l == PlannedInPlace(h, m, t).layout && l.contentStart == h.contentStart
  {
    hide MapSize, AlignUp;
  }

  /** The content offset an atomic setter publishes is the one the layout histories are about. */
  lemma PublishedOffset(name: string, file: seq<byte>, h: ObjectHeader, m: Map, t: Map, l: SectionLayout)
    requires FinalLayout(AtomicPlan(name, file, h, m, t), l)
    ensures l.contentStart == RewriteOffset(h.contentStart, MapSize(m), MapSize(t))
  {
    hide MapSize, AlignUp, Repartition, Compute;
    ComputeThenRepartition(DEFAULT_OPTIONS.(minContentStart := h.contentStart), MapSize(m), MapSize(t));
    RefusedOffset(h.contentStart, MapSize(m), MapSize(t));
    RepartitionIsSound(RewriteOffset(h.contentStart, MapSize(m), MapSize(t)), MapSize(m), MapSize(t),
                       DEFAULT_ALIGNMENT);
  }

  /** Where no layout can be computed, the old prefix does not take the sections either. */
  lemma RefusedOffset(contentStart: nat, metadataSize: nat, tagsSize: nat)
    ensures Compute(DEFAULT_OPTIONS.(minContentStart := contentStart), metadataSize, tagsSize).Err? ==>
              !Repartition(contentStart, metadataSize, tagsSize, DEFAULT_ALIGNMENT).Fits?
  {
    hide AlignUp;
  }

  lemma RewroteOffset(name: string, file: seq<byte>, h: ObjectHeader, m: Map, t: Map, h': ObjectHeader, ino: nat,
                      s0: Snapshot, s1: Snapshot)
    requires Rewrote(AtomicPlan(name, file, h, m, t), h', ino, s0, s1)
    ensures h'.contentStart == RewriteOffset(h.contentStart, MapSize(m), MapSize(t))
  {
    hide IsObject, MapSize, FinalLayout, RewriteOffset, StoredContent;
    PublishedOffset(name, file, h, m, t, h'.Layout());
  }

  /** The bit flags are the one byte at offset 23. */
  lemma FlagsAreOneByte(h: ObjectHeader, mo: seq<Entry>, to: seq<Entry>)
    requires SectionsFit(h.Layout(), mo, to)
    ensures Prefix(h.(bitFlags := 0), mo, to) == Prefix(h, mo, to)[23 := 0]
    ensures Prefix(h, mo, to)[23] == h.bitFlags
  {
    hide EncodeCompression, EncodeUint, EncodeBlock;
    var rest := EncodeBlock(mo) + Zeros(h.tagsStart - HEADER_SIZE - |EncodeBlock(mo)|)
                + EncodeBlock(to) + Zeros(h.contentStart - h.tagsStart - |EncodeBlock(to)|);
    assert Prefix(h, mo, to) == EncodeHeader(h) + rest;
    assert Prefix(h.(bitFlags := 0), mo, to) == EncodeHeader(h.(bitFlags := 0)) + rest;
    assert EncodeHeader(h.(bitFlags := 0)) == EncodeHeader(h)[23 := 0];
  }

  /** Fast refines slow: on a file that holds its whole content, when an in-place update succeeds, its prefix is that of
      the object an atomic setter would publish for the same iteration order, except that the atomic setter clears
      the bit flags; the content is the same. The prefixes are equal exactly when the flags were clear. */
  lemma FastRefinesSlow(name: string, file: seq<byte>, h: ObjectHeader, m: Map, t: Map,
                        mo: seq<Entry>, to: seq<Entry>, prefix: seq<byte>, slow: Inode, hs: ObjectHeader)
    requires h.version == CURRENT_VERSION && |StoredContent(file, h)| == h.contentLength
    requires InPlacePrefix(h, m, t, mo, to, prefix)
    requires Fulfils(AtomicPlan(name, file, h, m, t), hs, slow)
    requires IsImage(slow.bytes, hs, m, t, StoredContent(file, h), mo, to)
    ensures var fast := prefix + Drop(file, h.contentStart);
            && |prefix| == h.contentStart <= |slow.bytes| && h.contentStart >= HEADER_SIZE
            && slow.bytes[..h.contentStart] == prefix[23 := 0]
            && (slow.bytes[..h.contentStart] == prefix <==> h.bitFlags == 0)
            && StoredContent(slow.bytes, hs) == StoredContent(fast, InPlaceHeader(h, m, t)) == StoredContent(file, h)
  {
    hide MapSize, AlignUp, Prefix, Repartition, EncodeBlock, DecodeBlock, Enumerates, DecodeHeader, FinalLayout,
      LegalMap;
    SameLayout(name, file, h, m, t, hs.Layout());
    var hf := InPlaceHeader(h, m, t);
    assert hs == hf.(bitFlags := 0);
    FlagsAreOneByte(hf, mo, to);
    PrefixParts(hs, mo, to, StoredContent(file, h));
    PrefixParts(hf, mo, to, Drop(file, h.contentStart));
    assert slow.bytes[..h.contentStart] == Prefix(hs, mo, to);
  }

  // ---- updates that are refused -----------------------------------------------------------------

  /** An object that no atomic update can ever change: one byte of compressed content is enough. */
  lemma CompressedObjectsCannotBeUpdated(fs: FileSystem, rules: TextRules, names: Names)
    requires fs.zstd
    ensures var h := ObjectHeader(CURRENT_VERSION, Zstd(3), 64, 192, 1, 0);
            && SectionsFit(h.Layout(), [], [])
            && var file := Prefix(h, [], []) + [7];
               && IsObject(file, h, map[], map[], [7])
               && OpenBytes(rules, file) == Result.Ok((h, map[])) && StoredContent(file, h) == [7]
               && UpdateRefused(fs, names, true, h, map[], map[], StoredContent(file, h),
                                if names.AllTaken? then IO(NamesExhausted) else RawWriteRefused)
  {
    hide IsObject, MapSize, Prefix, OpenBytes, Compute, EncodeBlock, Enumerates, LegalMap, StoredContent, TagBytes;
    var h := ObjectHeader(CURRENT_VERSION, Zstd(3), 64, 192, 1, 0);
    EmptySections();
    SmallPrefixIsKept();
    EmptyObject(h, [7]);
    NoneWellTyped(rules, MetaKey);
    NoneWellTyped(rules, TagKey);
    ObjectDecodes(rules, Prefix(h, [], []) + [7], h, map[], map[], [7]);
  }

  lemma SmallPrefixIsKept()
    ensures Compute(DEFAULT_OPTIONS.(minContentStart := 192), 2, 2) == Result.Ok(SectionLayout(64, 192))
  {
    assert AlignUp(34, 32) == 64;
  }

  // ---- interrupted in-place updates -------------------------------------------------------------

  /** The tag offset of a header over which `n` bytes of another one were written: the offset is the two bytes at 9. */
  function TornTagsStart(n: nat, before: u16, after: u16): u16 {
    if n <= 9 then before
    else if n == 10 then after % 256 + before / 256 * 256
    else after
  }

  /** Two headers that differ in the tag offset only are torn between nowhere else, whatever the bytes that decoding
      ignores were. */
  lemma TornHeader(b: seq<byte>, h: ObjectHeader, tagsStart: u16, n: nat)
    requires |b| == HEADER_SIZE && DecodeHeader(b) == Result.Ok(h) && n <= HEADER_SIZE
    ensures DecodeHeader(EncodeHeader(h.(tagsStart := tagsStart))[..n] + b[n..])
         == Result.Ok(h.(tagsStart := TornTagsStart(n, h.tagsStart, tagsStart)))
  {
    hide EncodeHeader, EncodeCompression, DecodeCompression, EncodeUint, DecodeHeader, Uint;
    var h' := h.(tagsStart := tagsStart);
    var e := EncodeHeader(h');
    HeaderFields(h', []);
    assert e + [] == e;
    FieldsCanonical(b);
    var x := e[..n] + b[n..];
    MixedField(e, b, n, 0, 3);
    MixedField(e, b, n, 11, 15);
    MixedField(e, b, n, 15, 23);
    assert x[3] == h.version && x[23] == h.bitFlags;
    TornCompression(e, b, n, h.compression);
    TornOffset(e, b, n, h.tagsStart, tagsStart);
    FromFields(b, h);
    FromFields(x, h.(tagsStart := TornTagsStart(n, h.tagsStart, tagsStart)));
  }

  lemma MixedField(e: seq<byte>, b: seq<byte>, n: nat, i: nat, j: nat)
    requires |e| == |b| && n <= |b| && i <= j <= |b| && e[i..j] == b[i..j]
    ensures (e[..n] + b[n..])[i..j] == b[i..j]
  {
    forall k | i <= k < j
      ensures (e[..n] + b[n..])[k] == b[k]
    {
      assert e[i..j][k - i] == b[i..j][k - i];
    }
  }

  lemma TornCompression(e: seq<byte>, b: seq<byte>, n: nat, c: CompressionType)
    requires |e| == |b| == HEADER_SIZE && n <= HEADER_SIZE
    requires e[4..9] == EncodeCompression(c) && DecodeCompression(b[4..9]) == Result.Ok(c)
    ensures DecodeCompression((e[..n] + b[n..])[4..9]) == Result.Ok(c)
  {
    var x := e[..n] + b[n..];
    CompressionCanonical(b[4..9]);
    if c.NoCompression? {
      assert e[4..9][0] == 0 && b[4..9][0] == 0;
      assert x[4..9][0] == 0;
    } else {
      assert b[4..9][0] != 0;
      MixedField(e, b, n, 4, 9);
    }
  }

  lemma TornOffset(e: seq<byte>, b: seq<byte>, n: nat, before: u16, after: u16)
    requires |e| == |b| == HEADER_SIZE && n <= HEADER_SIZE
    requires e[9..11] == EncodeUint(after, 2) && b[9..11] == EncodeUint(before, 2)
    ensures Uint((e[..n] + b[n..])[9..11]) == TornTagsStart(n, before, after)
  {
    var x := e[..n] + b[n..];
    TwoBytes(e[9..11], after);
    TwoBytes(b[9..11], before);
    var torn := TornTagsStart(n, before, after);
    assert x[9..11] == [x[9], x[10]];
    TwoDigits(after % 256, before / 256);
    assert x[9] == e[9..11][0] || n <= 9;
    assert x[10] == (if n <= 10 then b[9..11][1] else e[9..11][1]);
    assert x[9] == torn % 256 && x[10] == torn / 256;
    assert FromLe([x[10]]) == x[10];
    assert [x[9], x[10]][1..] == [x[10]];
  }

  lemma TwoDigits(low: nat, high: nat)
    requires low < 256
    ensures (low + high * 256) % 256 == low && (low + high * 256) / 256 == high
  {
  }

  lemma TwoBytes(b: seq<byte>, n: u16)
    requires b == EncodeUint(n, 2)
    ensures b == [n % 256, n / 256]
  {
    assert n / 256 < 256;
    assert ToLe(n / 256, 1) == [n / 256];
  }

  lemma FromFields(b: seq<byte>, h: ObjectHeader)
    requires |b| == HEADER_SIZE
    ensures DecodeHeader(b) == Result.Ok(h) <==>
            && b[..3] == MAGIC && b[3] == h.version == CURRENT_VERSION
            && DecodeCompression(b[4..9]) == Result.Ok(h.compression) && Uint(b[9..11]) == h.tagsStart
            && Uint(b[11..15]) == h.contentStart && Uint(b[15..23]) == h.contentLength && b[23] == h.bitFlags
  {
    hide DecodeCompression, Uint;
  }

  /** A handle that was interrupted after `n` bytes of the prefix, for every `n`. Within the header, its cache agrees
      with the file exactly if the part that is down leaves the tag offset as it was: always up to byte 9, by the low
      byte at 10, and from 11 on if the update left the header as it was. Within the metadata section, the mixture of
      new and old bytes must decode to the cached metadata besides; once that section is down, the update must have
      left both as they were. */
  lemma InterruptedUpdate(rules: TextRules, file: seq<byte>, h: ObjectHeader, cached: Map, m: Map, t: Map,
                          mo: seq<Entry>, to: seq<Entry>, prefix: seq<byte>, n: nat)
    requires OpenBytes(rules, file) == Result.Ok((h, cached)) && h.version == CURRENT_VERSION
    requires WellTypedMap(rules, MetaKey, m) && WellTypedMap(rules, TagKey, t)
    requires InPlacePrefix(h, m, t, mo, to, prefix) && n <= |prefix|
    ensures var torn, h' := Overwrite(file, 0, prefix[..n]), InPlaceHeader(h, m, t);
            OpenBytes(rules, torn) == Result.Ok((h, cached)) <==>
            if n <= HEADER_SIZE then TornTagsStart(n, h.tagsStart, h'.tagsStart) == h.tagsStart
            else if n < h'.tagsStart then
              h' == h && SectionHolds(rules, prefix[HEADER_SIZE..n] + Window(file, n, h.tagsStart - n), cached)
            else h' == h && m == cached
  {
    hide MapSize, Repartition, LegalMap, WellTypedMap, Enumerates, Prefix, TagBytes, EncodeBlock, DecodeBlock,
      EncodeHeader, DecodeHeader;
    var h' := InPlaceHeader(h, m, t);
    PrefixParts(h', mo, to, []);
    assert prefix + [] == prefix;
    OverwritePrefix(file, prefix[..n]);
    var torn := Overwrite(file, 0, prefix[..n]);
    if n <= HEADER_SIZE {
      InterruptedHeader(rules, file, h, cached, h'.tagsStart, prefix, n);
    } else {
      HeaderRoundTrip(h', []);
      assert EncodeHeader(h') + [] == EncodeHeader(h');
      assert torn[..HEADER_SIZE] == EncodeHeader(h') by { FrontOf(prefix, n, Drop(file, n), HEADER_SIZE); }
      if n >= h'.tagsStart {
        InPlaceDecodes(rules, h, m, t, mo, to, prefix, []);
        assert torn[..h'.tagsStart] == prefix[..h'.tagsStart] by { FrontOf(prefix, n, Drop(file, n), h'.tagsStart); }
        SameFront(rules, prefix, torn, h');
      } else if h' == h {
        assert torn[HEADER_SIZE..h.tagsStart] == prefix[HEADER_SIZE..n] + Window(file, n, h.tagsStart - n);
      }
    }
  }

  /** A metadata section that decodes to this map. */
  predicate SectionHolds(rules: TextRules, section: seq<byte>, m: Map) {
    match DecodeBlock(rules, MetaKey, section)
    case Ok(entries, _) => MapOf(entries) == m
    case Fail(_) => false
  }

  lemma InterruptedHeader(rules: TextRules, file: seq<byte>, h: ObjectHeader, cached: Map, tagsStart: u16,
                          prefix: seq<byte>, n: nat)
    requires OpenBytes(rules, file) == Result.Ok((h, cached)) && n <= HEADER_SIZE <= |prefix|
    requires prefix[..HEADER_SIZE] == EncodeHeader(h.(tagsStart := tagsStart))
    ensures OpenBytes(rules, Overwrite(file, 0, prefix[..n])) == Result.Ok((h, cached)) <==>
            TornTagsStart(n, h.tagsStart, tagsStart) == h.tagsStart
  {
    hide DecodeHeader, EncodeHeader, DecodeBlock;
    OverwritePrefix(file, prefix[..n]);
    var torn := Overwrite(file, 0, prefix[..n]);
    var front := file[..HEADER_SIZE];
    TornHeader(front, h, tagsStart, n);
    assert prefix[..n] == EncodeHeader(h.(tagsStart := tagsStart))[..n];
    assert torn[..HEADER_SIZE] == prefix[..n] + front[n..];
    assert torn[HEADER_SIZE..] == file[HEADER_SIZE..];
    if h.tagsStart > HEADER_SIZE {
      assert torn[HEADER_SIZE..h.tagsStart] == file[HEADER_SIZE..h.tagsStart] by {
        assert torn[HEADER_SIZE..][..h.tagsStart - HEADER_SIZE] == file[HEADER_SIZE..][..h.tagsStart - HEADER_SIZE];
      }
    }
  }

  lemma FrontOf(prefix: seq<byte>, n: nat, rest: seq<byte>, k: nat)
    requires k <= n <= |prefix|
    ensures |prefix[..n] + rest| >= k && (prefix[..n] + rest)[..k] == prefix[..k]
  {
  }

  /** What opening yields depends on the bytes in front of the tags only. */
  lemma SameFront(rules: TextRules, x: seq<byte>, y: seq<byte>, h: ObjectHeader)
    requires |x| >= HEADER_SIZE && |y| >= HEADER_SIZE && HEADER_SIZE <= h.tagsStart <= |x| && h.tagsStart <= |y|
    requires x[..h.tagsStart] == y[..h.tagsStart] && DecodeHeader(x[..HEADER_SIZE]) == Result.Ok(h)
    ensures OpenBytes(rules, x) == OpenBytes(rules, y)
  {
    hide DecodeHeader, DecodeBlock;
    assert x[..HEADER_SIZE] == x[..h.tagsStart][..HEADER_SIZE] == y[..HEADER_SIZE];
    assert x[HEADER_SIZE..h.tagsStart] == x[..h.tagsStart][HEADER_SIZE..] == y[HEADER_SIZE..h.tagsStart];
  }

  /** An interruption that does leave the cache behind: an empty object laid out with alignment 96, updated in place to
      the same empty sections, with the write cut off after the header. */
  lemma TornUpdateDisagrees(rules: TextRules)
    ensures var h := ObjectHeader(CURRENT_VERSION, NoCompression, 96, 192, 0, 0);
            && FreshLayout(LayoutOptions(0, 0, 96, 0), 2, 2) == Result.Ok(h.Layout())
            && SectionsFit(h.Layout(), [], [])
            && IsObject(Prefix(h, [], []), h, map[], map[], [])
            && OpenBytes(rules, Prefix(h, [], [])) == Result.Ok((h, map[]))
            && var h' := h.(tagsStart := 64);
               && SectionsFit(h'.Layout(), [], []) && InPlacePrefix(h, map[], map[], [], [], Prefix(h', [], []))
               && var torn := Overwrite(Prefix(h, [], []), 0, Prefix(h', [], [])[..HEADER_SIZE]);
                  OpenBytes(rules, torn) != Result.Ok((h, map[]))
  {
    hide IsObject, MapSize, Prefix, OpenBytes, FreshLayout, Repartition, EncodeBlock, Enumerates, LegalMap,
      Overwrite, StoredContent, TagBytes;
    var h := ObjectHeader(CURRENT_VERSION, NoCompression, 96, 192, 0, 0);
    var h' := h.(tagsStart := 64);
    EmptySections();
    MovedTags();
    var file, prefix := Prefix(h, [], []), Prefix(h', [], []);
    EmptyObject(h, []);
    assert file + [] == file;
    NoneWellTyped(rules, MetaKey);
    NoneWellTyped(rules, TagKey);
    ObjectDecodes(rules, file, h, map[], map[], []);
    assert InPlaceHeader(h, map[], map[]) == h';
    InterruptedUpdate(rules, file, h, map[], map[], map[], [], [], prefix, HEADER_SIZE);
  }

  lemma EmptyObject(h: ObjectHeader, content: seq<byte>)
    requires h.version == CURRENT_VERSION && h.contentLength == |content| && SectionsFit(h.Layout(), [], [])
    ensures IsObject(Prefix(h, [], []) + content, h, map[], map[], content)
  {
    hide Prefix, EncodeBlock;
    assert IsImage(Prefix(h, [], []) + content, h, map[], map[], content, [], []);
  }

  lemma MovedTags()
    ensures FreshLayout(LayoutOptions(0, 0, 96, 0), 2, 2) == Result.Ok(SectionLayout(96, 192))
    ensures Repartition(192, 2, 2, DEFAULT_ALIGNMENT) == Fits(SectionLayout(64, 192))
  {
    assert AlignUp(34, 96) == 96 && AlignUp(98, 96) == 192 && AlignUp(0, 96) == 0 && AlignUp(34, 32) == 64;
  }

  lemma EmptySections()
    ensures Enumerates([], map[]) && LegalMap(map[]) && MapSize(map[]) == 2 && |EncodeBlock([])| == 2
  {
    BlockSize([], map[]);
  }
}
