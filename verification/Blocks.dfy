/** The map block behind `Tags` and `MetadataMap`: a `u16` count, then each key and value. */
module Blocks {
  import opened Outcome
  import opened Bytes
  import opened Values

  /** Tag keys are strings; metadata keys are header names. */
  datatype KeyKind = TagKey | MetaKey

  datatype Entry = Entry(key: seq<byte>, value: ValueType)

  type Map = map<seq<byte>, ValueType>

  // ---- maps and their enumerations --------------------------------------------------------------

  /** Inserting the entries in order: a later duplicate replaces an earlier one. */
  function MapOf(es: seq<Entry>): Map {
    if es == [] then map[] else MapOf(es[..|es| - 1])[es[|es| - 1].key := es[|es| - 1].value]
  }

  ghost predicate Distinct(es: seq<Entry>) {
    forall i, j :: 0 <= i < j < |es| ==> es[i].key != es[j].key
  }

  /** `es` lists the map's entries, each once, in some order: one iteration of a `HashMap`. */
  ghost predicate Enumerates(es: seq<Entry>, m: Map) {
    Distinct(es) && MapOf(es) == m
  }

  function EntrySize(e: Entry): nat {
    |e.key| + 2 + Size(e.value)
  }

  function EntriesSize(es: seq<Entry>): nat {
    if es == [] then 0 else EntriesSize(es[..|es| - 1]) + EntrySize(es[|es| - 1])
  }

  /** The encoded size of the pairs of a map. */
  ghost function PairsSize(m: Map): nat {
    if m == map[] then 0
    else
      var k :| k in m;
      EntrySize(Entry(k, m[k])) + PairsSize(m - {k})
  }

  /** `Tags::size()`: the count and every pair. */
  ghost function MapSize(m: Map): nat {
    2 + PairsSize(m)
  }

  /** What the writer accepts: the count and every length fit their prefixes. */
  ghost predicate LegalMap(m: Map) {
    && |m| <= MAX_PREFIXED_LENGTH
    && forall k :: k in m ==> |k| <= MAX_PREFIXED_LENGTH && Legal(m[k])
  }

  predicate WellTypedKey(rules: ParseRules, kind: KeyKind, k: seq<byte>) {
    match kind
    case TagKey => rules.utf8(k)
    case MetaKey => rules.headerName(k) == Some(k)
  }

  predicate WellTypedEntry(rules: ParseRules, kind: KeyKind, e: Entry) {
    WellTypedKey(rules, kind, e.key) && WellTyped(rules, e.value)
  }

  /** What the type system of the source guarantees of a map: keys are strings or header names, string
      values are UTF-8. */
  ghost predicate WellTypedMap(rules: ParseRules, kind: KeyKind, m: Map) {
    forall k :: k in m ==> WellTypedEntry(rules, kind, Entry(k, m[k]))
  }

  lemma {:induction false} MapOfKeys(es: seq<Entry>)
    ensures forall k :: k in MapOf(es) <==> exists i :: 0 <= i < |es| && es[i].key == k
  {
    if es != [] {
      var front := es[..|es| - 1];
      MapOfKeys(front);
      forall k
        ensures k in MapOf(es) <==> exists i :: 0 <= i < |es| && es[i].key == k
      {
        if k in MapOf(front) {
          var i :| 0 <= i < |front| && front[i].key == k;
          assert es[i].key == k;
        } else if i :| 0 <= i < |es| && es[i].key == k {
          assert i < |es| - 1 ==> front[i].key == k;
        }
        assert es[|es| - 1].key in MapOf(es);
      }
    }
  }

  lemma LastKeyIsNew(es: seq<Entry>)
    requires Distinct(es) && es != []
    ensures es[|es| - 1].key !in MapOf(es[..|es| - 1])
  {
    var front := es[..|es| - 1];
    MapOfKeys(front);
    forall i | 0 <= i < |front|
      ensures front[i].key != es[|es| - 1].key
    {
      assert es[i].key != es[|es| - 1].key;
    }
  }

  lemma {:induction false} MapOfDistinct(es: seq<Entry>)
    requires Distinct(es)
    ensures |MapOf(es)| == |es|
    ensures forall i :: 0 <= i < |es| ==> es[i].key in MapOf(es) && MapOf(es)[es[i].key] == es[i].value
  {
    if es != [] {
      var front := es[..|es| - 1];
      var last := es[|es| - 1];
      MapOfDistinct(front);
      LastKeyIsNew(es);
      assert MapOf(es).Keys == MapOf(front).Keys + {last.key};
      forall i | 0 <= i < |es|
        ensures es[i].key in MapOf(es) && MapOf(es)[es[i].key] == es[i].value
      {
        if i < |front| {
          assert front[i] == es[i];
        }
      }
    }
  }

  lemma DistinctExtend(es: seq<Entry>, e: Entry)
    requires Distinct(es) && e.key !in MapOf(es)
    ensures Distinct(es + [e]) && MapOf(es + [e]) == MapOf(es)[e.key := e.value]
  {
    MapOfKeys(es);
    assert (es + [e])[..|es|] == es;
    forall i, j | 0 <= i < j < |es + [e]|
      ensures (es + [e])[i].key != (es + [e])[j].key
    {
      if j == |es| {
        assert es[i].key in MapOf(es);
      }
    }
  }

  /** The size of a map may be summed from any pair. */
  lemma {:induction false} PairsSizePick(m: Map, k: seq<byte>)
    requires k in m
    ensures PairsSize(m) == EntrySize(Entry(k, m[k])) + PairsSize(m - {k})
    decreases |m|
  {
    var p :| p in m && PairsSize(m) == EntrySize(Entry(p, m[p])) + PairsSize(m - {p});
    if p != k {
      PairsSizePick(m - {p}, k);
      PairsSizePick(m - {k}, p);
      assert m - {p} - {k} == m - {k} - {p};
    }
  }

  /** Every enumeration of a map has the size of the map: iteration order does not matter. */
  lemma {:induction false} EnumerationSize(es: seq<Entry>, m: Map)
    requires Enumerates(es, m)
    ensures |es| == |m| && EntriesSize(es) == PairsSize(m)
  {
    MapOfDistinct(es);
    if es != [] {
      var front := es[..|es| - 1];
      var last := es[|es| - 1];
      LastKeyIsNew(es);
      assert m - {last.key} == MapOf(front);
      PairsSizePick(m, last.key);
      EnumerationSize(front, MapOf(front));
    }
  }

  // ---- encoding ---------------------------------------------------------------------------------

  function EncodeEntry(e: Entry): (r: seq<byte>)
    ensures |r| == EntrySize(e)
  {
    EncodeBlob(e.key) + EncodeValue(e.value)
  }

  function EncodeEntries(es: seq<Entry>): (r: seq<byte>)
    ensures |r| == EntriesSize(es)
  {
    if es == [] then [] else EncodeEntries(es[..|es| - 1]) + EncodeEntry(es[|es| - 1])
  }

  function EncodeBlock(es: seq<Entry>): (r: seq<byte>)
    ensures |r| == 2 + EntriesSize(es)
  {
    EncodeUint(|es|, 2) + EncodeEntries(es)
  }

  lemma {:induction false} EncodeEntriesFront(es: seq<Entry>)
    requires es != []
    ensures EncodeEntries(es) == EncodeEntry(es[0]) + EncodeEntries(es[1..])
  {
    hide EncodeEntry, EntrySize, EntriesSize;
    var front := es[..|es| - 1];
    if |es| == 1 {
      assert front == [] && es[1..] == [];
    } else {
      EncodeEntriesFront(front);
      assert es[1..][..|es| - 2] == front[1..];
      assert es[1..][|es| - 2] == es[|es| - 1];
    }
  }

  /** The bytes of a block as the format documents them: the count, then, entry by entry, the length of the key, the key
      and the value. */
  function WireBlock(es: seq<Entry>): seq<byte>
    requires Encodable(es) && |es| <= 0xFFFF
  {
    Wire2(|es|) + WireEntries(es)
  }

  predicate Encodable(es: seq<Entry>) {
    forall e :: e in es ==> |e.key| <= 0xFFFF && Legal(e.value)
  }

  function WireEntries(es: seq<Entry>): seq<byte>
    requires Encodable(es)
  {
    if es == [] then []
    else Wire2(|es[0].key|) + es[0].key + Wire(es[0].value) + WireEntries(es[1..])
  }

  lemma {:induction false} EntriesOnTheWire(es: seq<Entry>)
    requires Encodable(es)
    ensures EncodeEntries(es) == WireEntries(es)
  {
    hide EncodeUint, EncodeValue, Wire, Wire2, EntriesSize, EntrySize, Legal;
    if es != [] {
      assert es[0] in es;
      EncodeEntriesFront(es);
      Wire2IsUint(|es[0].key|);
      ValueOnTheWire(es[0].value);
      EntriesOnTheWire(es[1..]);
    }
  }

  /** What is encoded is the documented form. */
  lemma BlockOnTheWire(es: seq<Entry>)
    requires Encodable(es) && |es| <= 0xFFFF
    ensures EncodeBlock(es) == WireBlock(es)
  {
    hide EncodeUint, Wire2, EncodeEntries, WireEntries;
    Wire2IsUint(|es|);
    EntriesOnTheWire(es);
  }

  // ---- decoding ---------------------------------------------------------------------------------

  function ParseKey(rules: ParseRules, kind: KeyKind, b: seq<byte>): Result<seq<byte>, EncodingError> {
    match kind
    case TagKey => if rules.utf8(b) then Result.Ok(b) else Err(InvalidUtf8)
    case MetaKey =>
      match rules.headerName(b)
      case Some(k) => Result.Ok(k)
      case None => Err(OtherDecodingError)
  }

  function DecodeKey(rules: ParseRules, kind: KeyKind, s: seq<byte>): Parsed<seq<byte>> {
    match DecodeBlob(s)
    case Fail(e) => Fail(e)
    case Ok(b, n) =>
      match ParseKey(rules, kind, b)
      case Err(e) => Fail(e)
      case Ok(k) => Parsed.Ok(k, n)
  }

  function DecodeEntry(rules: ParseRules, kind: KeyKind, s: seq<byte>): Parsed<Entry> {
    match DecodeKey(rules, kind, s)
    case Fail(e) => Fail(e)
    case Ok(k, n) =>
      match DecodeValue(rules, Drop(s, n))
      case Fail(e) => Fail(e)
      case Ok(v, n') => Parsed.Ok(Entry(k, v), n + n')
  }

  function DecodeEntries(rules: ParseRules, kind: KeyKind, s: seq<byte>, count: nat): Parsed<seq<Entry>> {
    if count == 0 then Parsed.Ok([], 0)
    else
      match DecodeEntry(rules, kind, s)
      case Fail(e) => Fail(e)
      case Ok(entry, n) =>
        match DecodeEntries(rules, kind, Drop(s, n), count - 1)
        case Fail(e) => Fail(e)
        case Ok(es, n') => Parsed.Ok([entry] + es, n + n')
  }

  /** The entries of the block at the front of `s`, duplicates and order included. */
  function DecodeBlock(rules: ParseRules, kind: KeyKind, s: seq<byte>): Parsed<seq<Entry>> {
    match DecodeUint(s, 2)
    case Fail(e) => Fail(e)
    case Ok(count, n) =>
      match DecodeEntries(rules, kind, Drop(s, n), count)
      case Fail(e) => Fail(e)
      case Ok(es, n') => Parsed.Ok(es, n + n')
  }

  // ---- measuring and searching ------------------------------------------------------------------

  function MeasureKey(s: seq<byte>): Result<nat, EncodingError> {
    match DecodeUint(s, 2)
    case Fail(e) => Err(e)
    case Ok(n, _) => Result.Ok(n + 2)
  }

  function MeasureEntries(s: seq<byte>, count: nat): Result<nat, EncodingError>
    decreases count
  {
    if count == 0 then Result.Ok(0)
    else
      match MeasureKey(s)
      case Err(e) => Err(e)
      case Ok(k) =>
        match MeasureValue(Drop(s, k))
        case Err(e) => Err(e)
        case Ok(v) =>
          match MeasureEntries(Drop(s, k + v), count - 1)
          case Err(e) => Err(e)
          case Ok(rest) => Result.Ok(k + v + rest)
  }

  function MeasureBlock(s: seq<byte>): Result<nat, EncodingError> {
    match DecodeUint(s, 2)
    case Fail(e) => Err(e)
    case Ok(count, _) =>
      match MeasureEntries(Drop(s, 2), count)
      case Err(e) => Err(e)
      case Ok(n) => Result.Ok(2 + n)
  }

  /** The scan of `find_from_reader`: stops at the first entry with the key, decoding what it passes. */
  function FindEntries(rules: ParseRules, kind: KeyKind, s: seq<byte>, count: nat, key: seq<byte>)
    : Result<Option<ValueType>, EncodingError>
  {
    if count == 0 then Result.Ok(None)
    else
      match DecodeKey(rules, kind, s)
      case Fail(e) => Err(e)
      case Ok(k, n) =>
        match DecodeValue(rules, Drop(s, n))
        case Fail(e) => Err(e)
        case Ok(v, n') =>
          if k == key then Result.Ok(Some(v))
          else FindEntries(rules, kind, Drop(s, n + n'), count - 1, key)
  }

  function FindBlock(rules: ParseRules, kind: KeyKind, s: seq<byte>, key: seq<byte>)
    : Result<Option<ValueType>, EncodingError>
  {
    match DecodeUint(s, 2)
    case Fail(e) => Err(e)
    case Ok(count, n) => FindEntries(rules, kind, Drop(s, n), count, key)
  }

  // ---- round trip -------------------------------------------------------------------------------

  lemma EntryRoundTrip(rules: TextRules, kind: KeyKind, e: Entry, rest: seq<byte>)
    requires |e.key| <= MAX_PREFIXED_LENGTH && Legal(e.value)
    requires WellTypedKey(rules, kind, e.key) && WellTyped(rules, e.value)
    ensures DecodeEntry(rules, kind, EncodeEntry(e) + rest) == Parsed.Ok(e, EntrySize(e))
  {
    var s := EncodeEntry(e) + rest;
    BlobRoundTrip(e.key, EncodeValue(e.value) + rest);
    assert s == EncodeBlob(e.key) + (EncodeValue(e.value) + rest);
    assert Drop(s, |e.key| + 2) == EncodeValue(e.value) + rest;
    ValueRoundTrip(rules, e.value, rest);
  }

  ghost predicate LegalEntries(rules: ParseRules, kind: KeyKind, es: seq<Entry>) {
    forall i :: 0 <= i < |es| ==>
      && |es[i].key| <= MAX_PREFIXED_LENGTH && Legal(es[i].value)
      && WellTypedEntry(rules, kind, es[i])
  }

  lemma {:induction false} EntriesRoundTrip(rules: TextRules, kind: KeyKind, es: seq<Entry>, rest: seq<byte>)
    requires LegalEntries(rules, kind, es)
    ensures DecodeEntries(rules, kind, EncodeEntries(es) + rest, |es|) == Parsed.Ok(es, EntriesSize(es))
  {
    hide DecodeEntry, EncodeEntry, EncodeEntries, EntrySize, WellTypedKey, WellTyped, Legal;
    if es != [] {
      EncodeEntriesFront(es);
      var tail := EncodeEntries(es[1..]) + rest;
      assert EncodeEntries(es) + rest == EncodeEntry(es[0]) + tail;
      EntryRoundTrip(rules, kind, es[0], tail);
      assert Drop(EncodeEntries(es) + rest, EntrySize(es[0])) == tail;
      EntriesRoundTrip(rules, kind, es[1..], rest);
      assert [es[0]] + es[1..] == es;
    }
  }

  lemma EnumerationIsLegal(rules: TextRules, kind: KeyKind, es: seq<Entry>, m: Map)
    requires Enumerates(es, m) && LegalMap(m) && WellTypedMap(rules, kind, m)
    ensures |es| == |m| && LegalEntries(rules, kind, es)
  {
    hide Legal, WellTypedEntry;
    MapOfDistinct(es);
    forall i | 0 <= i < |es|
      ensures |es[i].key| <= MAX_PREFIXED_LENGTH && Legal(es[i].value) && WellTypedEntry(rules, kind, es[i])
    {
      assert es[i] == Entry(es[i].key, m[es[i].key]);
    }
  }

  lemma CountRoundTrip(n: nat, rest: seq<byte>)
    requires n <= MAX_PREFIXED_LENGTH
    ensures DecodeUint(EncodeUint(n, 2) + rest, 2) == Parsed.Ok(n, 2)
    ensures Drop(EncodeUint(n, 2) + rest, 2) == rest
  {
    Pow256Values();
    FromLeToLe(n, 2);
    assert (EncodeUint(n, 2) + rest)[..2] == EncodeUint(n, 2);
  }

  /** The codec round trip, independent of iteration order: however a map is enumerated, decoding what was
      written, followed by anything at all, gives back the map and uses exactly its `size()`. */
  lemma BlockRoundTrip(rules: TextRules, kind: KeyKind, es: seq<Entry>, m: Map, rest: seq<byte>)
    requires Enumerates(es, m) && LegalMap(m) && WellTypedMap(rules, kind, m)
    ensures match DecodeBlock(rules, kind, EncodeBlock(es) + rest)
            case Fail(_) => false
            case Ok(back, n) => back == es && MapOf(back) == m && n == MapSize(m) == |EncodeBlock(es)|
  {
    hide DecodeEntries, EncodeEntries, MapOf, PairsSize, EntriesSize, LegalEntries, WellTypedMap, DecodeUint,
      EncodeUint;
    EnumerationIsLegal(rules, kind, es, m);
    EnumerationSize(es, m);
    CountRoundTrip(|es|, EncodeEntries(es) + rest);
    assert EncodeBlock(es) + rest == EncodeUint(|es|, 2) + (EncodeEntries(es) + rest);
    EntriesRoundTrip(rules, kind, es, rest);
  }

  // ---- decoding on arbitrary bytes --------------------------------------------------------------

  lemma DecodedEntryFacts(rules: TextRules, kind: KeyKind, s: seq<byte>)
    ensures match DecodeEntry(rules, kind, s)
            case Fail(_) => true
            case Ok(e, n) =>
              && n <= |s|
              && WellTypedEntry(rules, kind, e) && Legal(e.value)
              && MeasureKey(s).Ok? && MeasureValue(Drop(s, MeasureKey(s).value)).Ok?
              && n == MeasureKey(s).value + MeasureValue(Drop(s, MeasureKey(s).value)).value
              && (kind.TagKey? ==> s[..n] == EncodeEntry(e) && |e.key| <= MAX_PREFIXED_LENGTH)
  {
    hide DecodeValue, MeasureValue, EncodeValue, EncodeBlob, DecodeBlob, DecodeUint, Size, Legal, WellTyped, Drop;
    BlobCanonical(s);
    if DecodeKey(rules, kind, s).Ok? {
      var n := DecodeKey(rules, kind, s).used;
      TakeSum(s, n, 0);
      ValueCanonical(rules, Drop(s, n));
      if DecodeValue(rules, Drop(s, n)).Ok? {
        var n' := DecodeValue(rules, Drop(s, n)).used;
        TakeSum(s, n, n');
      }
    }
  }

  lemma {:induction false} EntriesMeasured(rules: TextRules, kind: KeyKind, s: seq<byte>, count: nat)
    ensures match DecodeEntries(rules, kind, s, count)
            case Fail(_) => true
            case Ok(es, n) => |es| == count && n <= |s| && MeasureEntries(s, count) == Result.Ok(n)
    decreases count
  {
    hide DecodeEntry, MeasureKey, MeasureValue, EncodeEntry, WellTypedEntry, Legal;
    if count > 0 {
      DecodedEntryFacts(rules, kind, s);
      if DecodeEntry(rules, kind, s).Ok? {
        EntriesMeasured(rules, kind, Drop(s, DecodeEntry(rules, kind, s).used), count - 1);
      }
    }
  }

  lemma {:induction false} EntriesWellTyped(rules: TextRules, kind: KeyKind, s: seq<byte>, count: nat)
    requires DecodeEntries(rules, kind, s, count).Ok?
    ensures var es := DecodeEntries(rules, kind, s, count).value;
            forall i :: 0 <= i < |es| ==> WellTypedEntry(rules, kind, es[i])
    decreases count
  {
    hide DecodeEntry, MeasureKey, MeasureValue, EncodeEntry, WellTypedEntry, Legal;
    if count > 0 {
      DecodedEntryFacts(rules, kind, s);
      EntriesWellTyped(rules, kind, Drop(s, DecodeEntry(rules, kind, s).used), count - 1);
    }
  }

  lemma {:induction false} TagEntriesCanonical(rules: TextRules, s: seq<byte>, count: nat)
    requires DecodeEntries(rules, TagKey, s, count).Ok?
    ensures var es := DecodeEntries(rules, TagKey, s, count);
            es.used <= |s| && s[..es.used] == EncodeEntries(es.value)
    decreases count
  {
    hide DecodeEntry, EncodeEntry, EncodeEntries, MeasureKey, MeasureValue, WellTypedEntry, Legal, EntrySize,
      EntriesSize, Drop, MeasureEntries;
    EntriesMeasured(rules, TagKey, s, count);
    var es := DecodeEntries(rules, TagKey, s, count).value;
    if count == 0 {
      EncodeNone();
    } else {
      DecodedEntryFacts(rules, TagKey, s);
      var n := DecodeEntry(rules, TagKey, s).used;
      TagEntriesCanonical(rules, Drop(s, n), count - 1);
      var n' := DecodeEntries(rules, TagKey, Drop(s, n), count - 1).used;
      assert es[1..] == DecodeEntries(rules, TagKey, Drop(s, n), count - 1).value;
      EncodeEntriesFront(es);
      TakeSum(s, n, n');
    }
  }

  lemma EncodeNone()
    ensures EncodeEntries([]) == []
  {
  }

  /** Measuring agrees with decoding on every byte string: a block that decodes after `n` bytes measures as `n`;
      its map is well typed; and a tag block is the very encoding of its entries. */
  lemma MeasureAgreesWithDecode(rules: TextRules, kind: KeyKind, s: seq<byte>)
    ensures match DecodeBlock(rules, kind, s)
            case Fail(_) => true
            case Ok(es, n) =>
              && n <= |s| && MeasureBlock(s) == Result.Ok(n)
              && |es| <= MAX_PREFIXED_LENGTH
              && WellTypedMap(rules, kind, MapOf(es))
              && (kind.TagKey? ==> s[..n] == EncodeBlock(es))
  {
    hide DecodeEntries, EncodeEntries, MeasureEntries, WellTypedEntry, EntriesSize;
    if |s| >= 2 {
      var count := FromLe(s[..2]);
      Pow256Values();
      ToLeFromLe(s[..2]);
      EntriesMeasured(rules, kind, Drop(s, 2), count);
      if DecodeEntries(rules, kind, Drop(s, 2), count).Ok? {
        EntriesWellTyped(rules, kind, Drop(s, 2), count);
      }
      if kind.TagKey? && DecodeEntries(rules, kind, Drop(s, 2), count).Ok? {
        TagEntriesCanonical(rules, Drop(s, 2), count);
      }
      match DecodeEntries(rules, kind, Drop(s, 2), count)
      case Fail(_) =>
      case Ok(es, n) =>
        MapOfValues(es);
        TakeSum(s, 2, n);
    }
  }

  /** Every pair of the built map was one of the entries. */
  lemma {:induction false} MapOfValues(es: seq<Entry>)
    ensures forall k :: k in MapOf(es) ==> exists i :: 0 <= i < |es| && es[i] == Entry(k, MapOf(es)[k])
  {
    if es != [] {
      var front := es[..|es| - 1];
      MapOfValues(front);
      forall k | k in MapOf(es)
        ensures exists i :: 0 <= i < |es| && es[i] == Entry(k, MapOf(es)[k])
      {
        if k == es[|es| - 1].key {
          assert es[|es| - 1] == Entry(k, MapOf(es)[k]);
        } else {
          assert k in MapOf(front);
          var i :| 0 <= i < |front| && front[i] == Entry(k, MapOf(front)[k]);
          assert es[i] == Entry(k, MapOf(es)[k]);
        }
      }
    }
  }

  lemma MeasuredEntryDecodes(rules: TextRules, kind: KeyKind, s: seq<byte>)
    requires MeasureKey(s).Ok? && MeasureValue(Drop(s, MeasureKey(s).value)).Ok?
    requires MeasureKey(s).value + MeasureValue(Drop(s, MeasureKey(s).value)).value <= |s|
    ensures match DecodeEntry(rules, kind, s)
            case Ok(_, used) => used == MeasureKey(s).value + MeasureValue(Drop(s, MeasureKey(s).value)).value
            case Fail(e) => e.InvalidUtf8? || e.InvalidValue? || e.OtherDecodingError?
  {
    hide DecodeValue, MeasureValue;
    MeasuredValueDecodes(rules, Drop(s, MeasureKey(s).value));
  }

  lemma {:induction false} MeasuredEntriesDecode(rules: TextRules, kind: KeyKind, s: seq<byte>, count: nat)
    ensures match MeasureEntries(s, count)
            case Err(_) => DecodeEntries(rules, kind, s, count).Fail?
            case Ok(n) =>
              n <= |s| ==>
                match DecodeEntries(rules, kind, s, count)
                case Ok(_, used) => used == n
                case Fail(e) => e.InvalidUtf8? || e.InvalidValue? || e.OtherDecodingError?
    decreases count
  {
    hide DecodeEntry, DecodeValue, MeasureKey, MeasureValue;
    EntriesMeasured(rules, kind, s, count);
    if count > 0 && MeasureEntries(s, count).Ok? && MeasureEntries(s, count).value <= |s| {
      var k := MeasureKey(s).value;
      var v := MeasureValue(Drop(s, k)).value;
      MeasuredEntryDecodes(rules, kind, s);
      MeasuredEntriesDecode(rules, kind, Drop(s, k + v), count - 1);
    }
  }

  /** The other direction: a block that measures as lying within the bytes decodes to that size or holds a name,
      string or flag its type forbids. Only content is left to go wrong, never length or type keys. */
  lemma MeasuredBlockDecodes(rules: TextRules, kind: KeyKind, s: seq<byte>)
    ensures match MeasureBlock(s)
            case Err(_) => DecodeBlock(rules, kind, s).Fail?
            case Ok(n) =>
              n <= |s| ==>
                match DecodeBlock(rules, kind, s)
                case Ok(_, used) => used == n
                case Fail(e) => e.InvalidUtf8? || e.InvalidValue? || e.OtherDecodingError?
  {
    MeasureAgreesWithDecode(rules, kind, s);
    if |s| >= 2 {
      MeasuredEntriesDecode(rules, kind, Drop(s, 2), FromLe(s[..2]));
    }
  }

  // ---- key search -------------------------------------------------------------------------------

  function FirstOf(es: seq<Entry>, key: seq<byte>): Option<ValueType> {
    if es == [] then None
    else if es[0].key == key then Some(es[0].value)
    else FirstOf(es[1..], key)
  }

  function Get(m: Map, key: seq<byte>): Option<ValueType> {
    if key in m then Some(m[key]) else None
  }

  /** On a block that decodes, the search returns the first entry with the key. */
  lemma {:induction false} FindIsFirst(rules: ParseRules, kind: KeyKind, s: seq<byte>, count: nat, key: seq<byte>)
    requires DecodeEntries(rules, kind, s, count).Ok?
    ensures FindEntries(rules, kind, s, count, key)
         == Result.Ok(FirstOf(DecodeEntries(rules, kind, s, count).value, key))
    decreases count
  {
    hide DecodeKey, DecodeValue;
    if count > 0 {
      var n := DecodeEntry(rules, kind, s).used;
      var es := DecodeEntries(rules, kind, s, count).value;
      assert es[1..] == DecodeEntries(rules, kind, Drop(s, n), count - 1).value;
      FindIsFirst(rules, kind, Drop(s, n), count - 1, key);
    }
  }

  /** On a block that does not decode, the search reports the same error, unless it met the key first. */
  lemma {:induction false} FindFailsAlike(rules: ParseRules, kind: KeyKind, s: seq<byte>, count: nat, key: seq<byte>)
    requires DecodeEntries(rules, kind, s, count).Fail?
    ensures match FindEntries(rules, kind, s, count, key)
            case Err(e) => e == DecodeEntries(rules, kind, s, count).error
            case Ok(found) => found.Some?
    decreases count
  {
    hide DecodeKey, DecodeValue;
    if count > 0 && DecodeEntry(rules, kind, s).Ok? {
      FindFailsAlike(rules, kind, Drop(s, DecodeEntry(rules, kind, s).used), count - 1, key);
    }
  }

  lemma {:induction false} FirstOfIsAnEntry(es: seq<Entry>, key: seq<byte>)
    ensures FirstOf(es, key).None? <==> forall i :: 0 <= i < |es| ==> es[i].key != key
    ensures FirstOf(es, key).Some? ==>
              exists i :: 0 <= i < |es| && es[i] == Entry(key, FirstOf(es, key).value)
                       && forall j :: 0 <= j < i ==> es[j].key != key
  {
    if es != [] {
      if es[0].key == key {
        assert es[0] == Entry(key, FirstOf(es, key).value);
      } else {
        FirstOfIsAnEntry(es[1..], key);
        if FirstOf(es[1..], key).Some? {
          var i :| 0 <= i < |es[1..]| && es[1..][i] == Entry(key, FirstOf(es, key).value)
                && forall j :: 0 <= j < i ==> es[1..][j].key != key;
          assert es[i + 1] == Entry(key, FirstOf(es, key).value);
          forall j | 0 <= j < i + 1
            ensures es[j].key != key
          {
            assert j > 0 ==> es[j] == es[1..][j - 1];
          }
        } else {
          forall i | 0 <= i < |es|
            ensures es[i].key != key
          {
            assert i > 0 ==> es[i] == es[1..][i - 1];
          }
        }
      }
    }
  }

  function LastOf(es: seq<Entry>, key: seq<byte>): Option<ValueType> {
    if es == [] then None
    else if es[|es| - 1].key == key then Some(es[|es| - 1].value)
    else LastOf(es[..|es| - 1], key)
  }

  lemma {:induction false} MapKeepsLast(es: seq<Entry>, key: seq<byte>)
    ensures Get(MapOf(es), key) == LastOf(es, key)
  {
    if es != [] {
      MapKeepsLast(es[..|es| - 1], key);
    }
  }

  /** Searching for a key against decoding the whole block: they agree exactly when the first entry with the
      key carries the same value as the last one, which holds whenever no key is repeated. */
  lemma FindAgreesWithDecode(rules: TextRules, kind: KeyKind, s: seq<byte>, key: seq<byte>)
    requires DecodeBlock(rules, kind, s).Ok?
    ensures var es := DecodeBlock(rules, kind, s).value;
            && FindBlock(rules, kind, s, key) == Result.Ok(FirstOf(es, key))
            && Get(MapOf(es), key) == LastOf(es, key)
            && (Distinct(es) ==> FindBlock(rules, kind, s, key) == Result.Ok(Get(MapOf(es), key)))
  {
    var es := DecodeBlock(rules, kind, s).value;
    FindIsFirst(rules, kind, Drop(s, 2), FromLe(s[..2]), key);
    MapKeepsLast(es, key);
    if Distinct(es) {
      MapOfDistinct(es);
      MapOfKeys(es);
      FirstOfIsAnEntry(es, key);
    }
  }

  /** A block with a repeated key on which the search and the decoder differ. */
  lemma FindDiffersOnDuplicates(rules: TextRules)
    requires rules.utf8([97])
    ensures var es := [Entry([97], U8(1)), Entry([97], U8(2))];
            var s := EncodeBlock(es);
            && DecodeBlock(rules, TagKey, s) == Parsed.Ok(es, |s|)
            && FindBlock(rules, TagKey, s, [97]) == Result.Ok(Some(U8(1)))
            && Get(MapOf(es), [97]) == Some(U8(2))
  {
    var es := [Entry([97], U8(1)), Entry([97], U8(2))];
    var s := EncodeBlock(es);
    EntriesRoundTrip(rules, TagKey, es, []);
    assert EncodeEntries(es) + [] == EncodeEntries(es);
    CountRoundTrip(2, EncodeEntries(es));
    FindAgreesWithDecode(rules, TagKey, s, [97]);
    MapKeepsLast(es, [97]);
  }
}
