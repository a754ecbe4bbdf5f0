/** `ValueType` and its wire form: a type key byte followed by the value. */
module Values {
  import opened Outcome
  import opened Bytes

  type u8 = x: int | 0 <= x < 0x100
  type u16 = x: int | 0 <= x < 0x1_0000
  type u32 = x: int | 0 <= x < 0x1_0000_0000
  type u64 = x: int | 0 <= x < 0x1_0000_0000_0000_0000
  type i8 = x: int | -0x80 <= x < 0x80
  type i16 = x: int | -0x8000 <= x < 0x8000
  type i32 = x: int | -0x8000_0000 <= x < 0x8000_0000
  type i64 = x: int | -0x8000_0000_0000_0000 <= x < 0x8000_0000_0000_0000

  const MAX_PREFIXED_LENGTH: nat := 0xFFFF

  datatype RawDate = RawDate(year: u16, month: u8, day: u8)
  datatype RawTime = RawTime(secondsFromMidnight: u32, nanoseconds: u32)
  datatype RawTimeZone = RawTimeZone(offset: i32)
  datatype RawDateTime = RawDateTime(date: RawDate, time: RawTime, timezone: RawTimeZone)

  /** Floats are carried as their bit patterns, strings as their UTF-8 bytes. */
  datatype ValueType =
    | String(text: seq<byte>)
    | Bytes(block: seq<byte>)
    | Bool(flag: bool)
    | U8(u8: u8)
    | U16(u16: u16)
    | U32(u32: u32)
    | U64(u64: u64)
    | I8(i8: i8)
    | I16(i16: i16)
    | I32(i32: i32)
    | I64(i64: i64)
    | F32(bits32: u32)
    | F64(bits64: u64)
    | Date(date: RawDate)
    | Time(time: RawTime)
    | DateTime(dateTime: RawDateTime)

  /** UTF-8 validity and header-name parsing (which may normalise), as the libraries provide them. A name
      that parsing produced parses to itself. */
  datatype ParseRules = ParseRules(
    utf8: seq<byte> -> bool,
    headerName: seq<byte> -> Option<seq<byte>>)

  ghost predicate NamesReparse(r: ParseRules) {
    forall b: seq<byte> :: r.headerName(b).Some? ==> r.headerName(r.headerName(b).value) == r.headerName(b)
  }

  type TextRules = r: ParseRules | NamesReparse(r)
    witness ParseRules((b: seq<byte>) => true, (b: seq<byte>) => Some(b))

  /** The outcome of decoding the front of a byte string: the value and how many bytes it took. */
  datatype Parsed<+T> = Ok(value: T, used: nat) | Fail(error: EncodingError)

  const SHORT: EncodingError := Io(UnexpectedEnd)

  // ---- encoding ---------------------------------------------------------------------------------

  function TypeKey(v: ValueType): byte {
    match v
    case U8(_) => 0
    case U16(_) => 1
    case U32(_) => 2
    case U64(_) => 3
    case I8(_) => 4
    case I16(_) => 5
    case I32(_) => 6
    case I64(_) => 7
    case F32(_) => 8
    case F64(_) => 9
    case Bool(_) => 10
    case Bytes(_) => 11
    case String(_) => 12
    case Date(_) => 13
    case Time(_) => 14
    case DateTime(_) => 16
  }

  function EncodeUint(n: nat, w: nat): (b: seq<byte>)
    ensures |b| == w
  {
    ToLe(n, w)
  }

  function EncodeInt(v: int, w: nat): (b: seq<byte>)
    requires w > 0 && -(Pow256(w) / 2) <= v < Pow256(w) / 2
    ensures |b| == w
  {
    ToLe(Unsigned(v, w), w)
  }

  /** A `u16` length and then the bytes: strings, byte blocks and keys. */
  function EncodeBlob(b: seq<byte>): (r: seq<byte>)
    ensures |r| == 2 + |b|
  {
    EncodeUint(|b|, 2) + b
  }

  function EncodeDate(d: RawDate): (r: seq<byte>)
    ensures |r| == 4
  {
    EncodeUint(d.year, 2) + EncodeUint(d.month, 1) + EncodeUint(d.day, 1)
  }

  function EncodeTime(t: RawTime): (r: seq<byte>)
    ensures |r| == 8
  {
    EncodeUint(t.secondsFromMidnight, 4) + EncodeUint(t.nanoseconds, 4)
  }

  function EncodeTimeZone(z: RawTimeZone): (r: seq<byte>)
    ensures |r| == 4
  {
    Pow256Values();
    EncodeInt(z.offset, 4)
  }

  function EncodeDateTime(d: RawDateTime): (r: seq<byte>)
    ensures |r| == 16
  {
    EncodeDate(d.date) + EncodeTime(d.time) + EncodeTimeZone(d.timezone)
  }

  function Payload(v: ValueType): seq<byte> {
    Pow256Values();
    match v
    case U8(n) => EncodeUint(n, 1)
    case U16(n) => EncodeUint(n, 2)
    case U32(n) => EncodeUint(n, 4)
    case U64(n) => EncodeUint(n, 8)
    case I8(n) => EncodeInt(n, 1)
    case I16(n) => EncodeInt(n, 2)
    case I32(n) => EncodeInt(n, 4)
    case I64(n) => EncodeInt(n, 8)
    case F32(n) => EncodeUint(n, 4)
    case F64(n) => EncodeUint(n, 8)
    case Bool(b) => [if b then 1 else 0]
    case Bytes(b) => EncodeBlob(b)
    case String(b) => EncodeBlob(b)
    case Date(d) => EncodeDate(d)
    case Time(t) => EncodeTime(t)
    case DateTime(d) => EncodeDateTime(d)
  }

  function EncodeValue(v: ValueType): seq<byte> {
    [TypeKey(v)] + Payload(v)
  }

  /** `size()`: the type key byte plus the value. */
  function Size(v: ValueType): (n: nat)
    ensures n == |EncodeValue(v)|
  {
    1 + match v
        case U8(_) => 1
        case U16(_) => 2
        case U32(_) => 4
        case U64(_) => 8
        case I8(_) => 1
        case I16(_) => 2
        case I32(_) => 4
        case I64(_) => 8
        case F32(_) => 4
        case F64(_) => 8
        case Bool(_) => 1
        case Bytes(b) => |b| + 2
        case String(b) => |b| + 2
        case Date(_) => 4
        case Time(_) => 8
        case DateTime(_) => 16
  }

  /** What the writer accepts. */
  predicate Legal(v: ValueType) {
    match v
    case Bytes(b) => |b| <= MAX_PREFIXED_LENGTH
    case String(b) => |b| <= MAX_PREFIXED_LENGTH
    case _ => true
  }

  /** What the type system of the source guarantees of a value: a string is UTF-8. */
  predicate WellTyped(rules: ParseRules, v: ValueType) {
    v.String? ==> rules.utf8(v.text)
  }

  // ---- decoding ---------------------------------------------------------------------------------

  function DecodeUint(s: seq<byte>, w: nat): Parsed<nat> {
    if |s| < w then Fail(SHORT) else Parsed.Ok(FromLe(s[..w]), w)
  }

  function DecodeBlob(s: seq<byte>): Parsed<seq<byte>> {
    match DecodeUint(s, 2)
    case Fail(e) => Fail(e)
    case Ok(n, _) => if |s| < 2 + n then Fail(SHORT) else Parsed.Ok(s[2..2 + n], 2 + n)
  }

  /** The payload width of a type key whose values all have one; 0 for the others. */
  function FixedWidth(key: byte): nat {
    if key in {0, 4, 10} then 1
    else if key in {1, 5} then 2
    else if key in {2, 6, 8, 13} then 4
    else if key in {3, 7, 9, 14} then 8
    else if key == 16 then 16
    else 0
  }

  /** The number of `w` bytes, within the bounds its width gives. */
  function Uint(b: seq<byte>): (n: nat)
    ensures n < Pow256(|b|)
  {
    ToLeFromLe(b);
    FromLe(b)
  }

  function DecodeDate(b: seq<byte>): RawDate
    requires |b| == 4
  {
    Pow256Values();
    RawDate(Uint(b[..2]), Uint(b[2..3]), Uint(b[3..4]))
  }

  function DecodeTime(b: seq<byte>): RawTime
    requires |b| == 8
  {
    Pow256Values();
    RawTime(Uint(b[..4]), Uint(b[4..8]))
  }

  function DecodeTimeZone(b: seq<byte>): RawTimeZone
    requires |b| == 4
  {
    Pow256Values();
    RawTimeZone(Signed(Uint(b), 4))
  }

  function DecodeDateTime(b: seq<byte>): RawDateTime
    requires |b| == 16
  {
    RawDateTime(DecodeDate(b[..4]), DecodeTime(b[4..12]), DecodeTimeZone(b[12..16]))
  }

  function DecodeBool(b: byte): Result<ValueType, EncodingError> {
    if b == 0 then Result.Ok(Bool(false))
    else if b == 1 then Result.Ok(Bool(true))
    else Err(InvalidValue(b))
  }

  /** The number of the type with this key whose little-endian bytes read as `n`. */
  function NumberOf(key: byte, n: nat): ValueType
    requires key <= 9 && n < Pow256(FixedWidth(key))
  {
    Pow256Values();
    match key
    case 0 => U8(n)
    case 1 => U16(n)
    case 2 => U32(n)
    case 3 => U64(n)
    case 4 => I8(Signed(n, 1))
    case 5 => I16(Signed(n, 2))
    case 6 => I32(Signed(n, 4))
    case 7 => I64(Signed(n, 8))
    case 8 => F32(n)
    case _ => F64(n)
  }

  function DecodeFixed(key: byte, b: seq<byte>): Result<ValueType, EncodingError>
    requires |b| == FixedWidth(key) > 0
  {
    if key <= 9 then Result.Ok(NumberOf(key, Uint(b)))
    else if key == 10 then DecodeBool(b[0])
    else if key == 13 then Result.Ok(Date(DecodeDate(b)))
    else if key == 14 then Result.Ok(Time(DecodeTime(b)))
    else Result.Ok(DateTime(DecodeDateTime(b)))
  }

  /** Decodes the value at the front of `s`. */
  function DecodeValue(rules: ParseRules, s: seq<byte>): Parsed<ValueType> {
    if s == [] then Fail(SHORT)
    else if s[0] == 12 then
      match DecodeBlob(s[1..])
      case Fail(e) => Fail(e)
      case Ok(b, n) => if rules.utf8(b) then Parsed.Ok(String(b), n + 1) else Fail(InvalidUtf8)
    else if s[0] == 11 then
      match DecodeBlob(s[1..])
      case Fail(e) => Fail(e)
      case Ok(b, n) => Parsed.Ok(Bytes(b), n + 1)
    else
      var w := FixedWidth(s[0]);
      if w == 0 then Fail(UnknownTypeKey(s[0]))
      else if |s[1..]| < w then Fail(SHORT)
      else
        match DecodeFixed(s[0], s[1..][..w])
        case Err(e) => Fail(e)
        case Ok(v) => Parsed.Ok(v, w + 1)
  }

  /** `ValueType::read_size`: the encoded size of the value at the front of `s`, from its type key and, for
      the variable-width types, the length prefix. */
  function MeasureValue(s: seq<byte>): Result<nat, EncodingError> {
    if s == [] then Err(SHORT)
    else if s[0] == 12 || s[0] == 11 then
      match DecodeUint(s[1..], 2)
      case Fail(e) => Err(e)
      case Ok(n, _) => Result.Ok(n + 3)
    else if FixedWidth(s[0]) == 0 then Err(UnknownTypeKey(s[0]))
    else Result.Ok(FixedWidth(s[0]) + 1)
  }

  // ---- the two directions agree -----------------------------------------------------------------

  lemma BlobRoundTrip(b: seq<byte>, rest: seq<byte>)
    requires |b| <= MAX_PREFIXED_LENGTH
    ensures DecodeBlob(EncodeBlob(b) + rest) == Parsed.Ok(b, |b| + 2)
  {
    Pow256Values();
    FromLeToLe(|b|, 2);
    assert (EncodeBlob(b) + rest)[..2] == EncodeUint(|b|, 2);
    assert (EncodeBlob(b) + rest)[2..2 + |b|] == b;
  }

  lemma BlobCanonical(s: seq<byte>)
    ensures match DecodeBlob(s)
            case Fail(_) => true
            case Ok(b, n) =>
              && n == |b| + 2 <= |s| && |b| <= MAX_PREFIXED_LENGTH && EncodeBlob(b) == s[..n]
              && DecodeUint(s, 2) == Parsed.Ok(|b|, 2)
  {
    if |s| >= 2 {
      Pow256Values();
      ToLeFromLe(s[..2]);
    }
  }

  lemma DateRoundTrip(d: RawDate)
    ensures DecodeDate(EncodeDate(d)) == d
  {
    Pow256Values();
    FromLeToLe(d.year, 2);
    FromLeToLe(d.month, 1);
    FromLeToLe(d.day, 1);
    var b := EncodeDate(d);
    assert b[..2] == EncodeUint(d.year, 2) && b[2..3] == EncodeUint(d.month, 1) && b[3..4] == EncodeUint(d.day, 1);
  }

  lemma DateCanonical(b: seq<byte>)
    requires |b| == 4
    ensures EncodeDate(DecodeDate(b)) == b
  {
    ToLeFromLe(b[..2]);
    ToLeFromLe(b[2..3]);
    ToLeFromLe(b[3..4]);
    assert b == b[..2] + b[2..3] + b[3..4];
  }

  lemma TimeRoundTrip(t: RawTime)
    ensures DecodeTime(EncodeTime(t)) == t
  {
    Pow256Values();
    FromLeToLe(t.secondsFromMidnight, 4);
    FromLeToLe(t.nanoseconds, 4);
    var b := EncodeTime(t);
    assert b[..4] == EncodeUint(t.secondsFromMidnight, 4) && b[4..8] == EncodeUint(t.nanoseconds, 4);
  }

  lemma TimeCanonical(b: seq<byte>)
    requires |b| == 8
    ensures EncodeTime(DecodeTime(b)) == b
  {
    ToLeFromLe(b[..4]);
    ToLeFromLe(b[4..8]);
    assert b == b[..4] + b[4..8];
  }

  lemma IntRoundTrip(v: int, w: nat)
    requires w > 0 && -(Pow256(w) / 2) <= v < Pow256(w) / 2
    ensures Signed(Uint(EncodeInt(v, w)), w) == v
  {
    FromLeToLe(Unsigned(v, w), w);
    SignedUnsigned(v, 0, w);
  }

  lemma IntCanonical(b: seq<byte>)
    requires b != []
    ensures EncodeInt(Signed(Uint(b), |b|), |b|) == b
  {
    ToLeFromLe(b);
    SignedUnsigned(0, Uint(b), |b|);
  }

  lemma DateTimeRoundTrip(d: RawDateTime)
    ensures DecodeDateTime(EncodeDateTime(d)) == d
  {
    Pow256Values();
    DateRoundTrip(d.date);
    TimeRoundTrip(d.time);
    IntRoundTrip(d.timezone.offset, 4);
    var b := EncodeDateTime(d);
    assert b[..4] == EncodeDate(d.date) && b[4..12] == EncodeTime(d.time) && b[12..16] == EncodeTimeZone(d.timezone);
  }

  lemma DateTimeCanonical(b: seq<byte>)
    requires |b| == 16
    ensures EncodeDateTime(DecodeDateTime(b)) == b
  {
    DateCanonical(b[..4]);
    TimeCanonical(b[4..12]);
    IntCanonical(b[12..16]);
    assert b == b[..4] + b[4..12] + b[12..16];
  }

  lemma FixedRoundTrip(v: ValueType)
    requires !v.String? && !v.Bytes?
    ensures FixedWidth(TypeKey(v)) == |Payload(v)|
    ensures DecodeFixed(TypeKey(v), Payload(v)) == Result.Ok(v)
  {
    hide DecodeDate, DecodeTime, DecodeDateTime, EncodeDate, EncodeTime, EncodeDateTime, EncodeBlob;
    Pow256Values();
    match v
    case U8(n) => FromLeToLe(n, 1);
    case U16(n) => FromLeToLe(n, 2);
    case U32(n) => FromLeToLe(n, 4);
    case U64(n) => FromLeToLe(n, 8);
    case I8(n) => IntRoundTrip(n, 1);
    case I16(n) => IntRoundTrip(n, 2);
    case I32(n) => IntRoundTrip(n, 4);
    case I64(n) => IntRoundTrip(n, 8);
    case F32(n) => FromLeToLe(n, 4);
    case F64(n) => FromLeToLe(n, 8);
    case Bool(b) =>
    case Date(d) => DateRoundTrip(d);
    case Time(t) => TimeRoundTrip(t);
    case DateTime(d) => DateTimeRoundTrip(d);
  }

  lemma NumberCanonical(key: byte, b: seq<byte>)
    requires |b| == FixedWidth(key) > 0 && key <= 10
    ensures match DecodeFixed(key, b)
            case Err(_) => true
            case Ok(v) => TypeKey(v) == key && Payload(v) == b && !v.String? && !v.Bytes? && Size(v) == 1 + |b|
  {
    hide DecodeDate, DecodeTime, DecodeDateTime, EncodeDate, EncodeTime, EncodeDateTime, EncodeBlob;
    if key in {4, 5, 6, 7} {
      IntCanonical(b);
    } else if key != 10 {
      ToLeFromLe(b);
    }
  }

  lemma FixedCanonical(key: byte, b: seq<byte>)
    requires |b| == FixedWidth(key) > 0
    ensures match DecodeFixed(key, b)
            case Err(_) => true
            case Ok(v) => TypeKey(v) == key && Payload(v) == b && !v.String? && !v.Bytes? && Size(v) == 1 + |b|
  {
    hide DecodeDate, DecodeTime, DecodeDateTime, EncodeDate, EncodeTime, EncodeDateTime, EncodeBlob, EncodeInt,
      EncodeUint, Uint, Signed;
    if key == 13 {
      DateCanonical(b);
    } else if key == 14 {
      TimeCanonical(b);
    } else if key == 16 {
      DateTimeCanonical(b);
    } else {
      NumberCanonical(key, b);
    }
  }

  /** Every legal value decodes to itself and to exactly `size()` bytes, whatever follows it. */
  lemma ValueRoundTrip(rules: ParseRules, v: ValueType, rest: seq<byte>)
    requires Legal(v) && WellTyped(rules, v)
    ensures DecodeValue(rules, EncodeValue(v) + rest) == Parsed.Ok(v, Size(v))
  {
    hide DecodeFixed, EncodeDate, EncodeTime, EncodeDateTime, EncodeInt, EncodeUint, DecodeBlob;
    var s := EncodeValue(v) + rest;
    assert s[1..] == Payload(v) + rest;
    match v
    case String(b) => BlobRoundTrip(b, rest);
    case Bytes(b) => BlobRoundTrip(b, rest);
    case _ =>
      FixedRoundTrip(v);
      assert s[1..][..FixedWidth(s[0])] == Payload(v);
  }

  lemma BlobValueCanonical(rules: ParseRules, s: seq<byte>)
    requires s != [] && (s[0] == 11 || s[0] == 12)
    ensures match DecodeValue(rules, s)
            case Fail(_) => true
            case Ok(v, n) =>
              && n <= |s| && s[..n] == EncodeValue(v) && n == Size(v)
              && Legal(v) && WellTyped(rules, v)
              && MeasureValue(s) == Result.Ok(n)
  {
    BlobCanonical(s[1..]);
    if DecodeBlob(s[1..]).Ok? {
      var n := DecodeBlob(s[1..]).used;
      assert s[..1 + n] == [s[0]] + s[1..][..n];
    }
  }

  /** Whatever decodes was the encoding of the decoded value: on arbitrary bytes decoding is one-to-one, the
      value is legal and well typed, and the bytes used are its size and its measure. */
  lemma ValueCanonical(rules: ParseRules, s: seq<byte>)
    ensures match DecodeValue(rules, s)
            case Fail(_) => true
            case Ok(v, n) =>
              && n <= |s| && s[..n] == EncodeValue(v) && n == Size(v)
              && Legal(v) && WellTyped(rules, v)
              && MeasureValue(s) == Result.Ok(n)
  {
    hide DecodeFixed, DecodeBlob, TypeKey, Payload;
    if s != [] {
      if s[0] == 11 || s[0] == 12 {
        BlobValueCanonical(rules, s);
      } else if 0 < FixedWidth(s[0]) && 1 + FixedWidth(s[0]) <= |s| {
        var w := FixedWidth(s[0]);
        FixedCanonical(s[0], s[1..][..w]);
        assert s[..1 + w] == [s[0]] + s[1..][..w];
      }
    }
  }

  /** A value that measures as fitting either decodes to that size or holds bytes its type forbids; it is never
      cut short and never of an unknown type. */
  lemma MeasuredValueDecodes(rules: ParseRules, s: seq<byte>)
    ensures match MeasureValue(s)
            case Err(_) => DecodeValue(rules, s).Fail?
            case Ok(n) =>
              n <= |s| ==>
                match DecodeValue(rules, s)
                case Ok(_, used) => used == n
                case Fail(e) => e.InvalidUtf8? || e.InvalidValue?
  {
    ValueCanonical(rules, s);
  }

  // ---- the wire form, written out ---------------------------------------------------------------

  /** Two bytes, the low one first. */
  function Wire2(n: nat): (b: seq<byte>)
    requires n < 0x1_0000
  {
    [n % 0x100, n / 0x100]
  }

  function Wire4(n: nat): seq<byte>
    requires n < 0x1_0000_0000
  {
    [n % 0x100, n / 0x100 % 0x100, n / 0x1_0000 % 0x100, n / 0x100_0000]
  }

  function Wire8(n: nat): seq<byte>
    requires n < 0x1_0000_0000_0000_0000
  {
    [n % 0x100, n / 0x100 % 0x100, n / 0x1_0000 % 0x100, n / 0x100_0000 % 0x100, n / 0x1_0000_0000 % 0x100,
     n / 0x100_0000_0000 % 0x100, n / 0x1_0000_0000_0000 % 0x100, n / 0x100_0000_0000_0000]
  }

  /** The bytes of a value as the format documents them: the type key, then the fields in their order; numbers are
      little-endian, negative ones in two's complement. */
  function Wire(v: ValueType): seq<byte>
    requires Legal(v)
  {
    match v
    case U8(n) => [0, n]
    case U16(n) => [1] + Wire2(n)
    case U32(n) => [2] + Wire4(n)
    case U64(n) => [3] + Wire8(n)
    case I8(n) => [4, if n < 0 then n + 0x100 else n]
    case I16(n) => [5] + Wire2(if n < 0 then n + 0x1_0000 else n)
    case I32(n) => [6] + Wire4(if n < 0 then n + 0x1_0000_0000 else n)
    case I64(n) => [7] + Wire8(if n < 0 then n + 0x1_0000_0000_0000_0000 else n)
    case F32(bits) => [8] + Wire4(bits)
    case F64(bits) => [9] + Wire8(bits)
    case Bool(b) => [10, if b then 1 else 0]
    case Bytes(b) => [11] + Wire2(|b|) + b
    case String(b) => [12] + Wire2(|b|) + b
    case Date(d) => [13] + WireDate(d)
    case Time(t) => [14] + WireTime(t)
    case DateTime(d) =>
      var zone := d.timezone.offset;
      [16] + WireDate(d.date) + WireTime(d.time) + Wire4(if zone < 0 then zone + 0x1_0000_0000 else zone)
  }

  function WireDate(d: RawDate): seq<byte> {
    Wire2(d.year) + [d.month, d.day]
  }

  function WireTime(t: RawTime): seq<byte> {
    Wire4(t.secondsFromMidnight) + Wire4(t.nanoseconds)
  }

  lemma Wire2IsUint(n: nat)
    requires n < 0x1_0000
    ensures EncodeUint(n, 2) == Wire2(n)
  {
    hide ToLe;
    Weights();
    ToLeDigits(n, 2, 0);
    ToLeDigits(n, 2, 1);
  }

  lemma Wire4IsUint(n: nat)
    requires n < 0x1_0000_0000
    ensures EncodeUint(n, 4) == Wire4(n)
  {
    hide ToLe;
    Weights();
    ToLeDigits(n, 4, 0);
    ToLeDigits(n, 4, 1);
    ToLeDigits(n, 4, 2);
    ToLeDigits(n, 4, 3);
  }

  lemma Wire8IsUint(n: nat)
    requires n < 0x1_0000_0000_0000_0000
    ensures EncodeUint(n, 8) == Wire8(n)
  {
    hide ToLe;
    Weights();
    ToLeDigits(n, 8, 0);
    ToLeDigits(n, 8, 1);
    ToLeDigits(n, 8, 2);
    ToLeDigits(n, 8, 3);
    ToLeDigits(n, 8, 4);
    ToLeDigits(n, 8, 5);
    ToLeDigits(n, 8, 6);
    ToLeDigits(n, 8, 7);
  }

  /** The weights of the eight digits. */
  lemma Weights()
    ensures Pow256(0) == 1 && Pow256(1) == 0x100 && Pow256(2) == 0x1_0000 && Pow256(3) == 0x100_0000
    ensures Pow256(4) == 0x1_0000_0000 && Pow256(5) == 0x100_0000_0000 && Pow256(6) == 0x1_0000_0000_0000
    ensures Pow256(7) == 0x100_0000_0000_0000
  {
    Pow256Values();
    assert Pow256(3) == 256 * Pow256(2) && Pow256(5) == 256 * Pow256(4);
    assert Pow256(6) == 256 * Pow256(5) && Pow256(7) == 256 * Pow256(6);
  }

  lemma WireFields(d: RawDate, t: RawTime, z: RawTimeZone)
    ensures EncodeDate(d) == WireDate(d) && EncodeTime(t) == WireTime(t)
    ensures EncodeTimeZone(z) == Wire4(if z.offset < 0 then z.offset + 0x1_0000_0000 else z.offset)
  {
    hide EncodeUint, Wire2, Wire4;
    Pow256Values();
    Wire2IsUint(d.year);
    OneByte(d.month);
    OneByte(d.day);
    Wire4IsUint(t.secondsFromMidnight);
    Wire4IsUint(t.nanoseconds);
    Wire4IsInt(z.offset);
  }

  lemma OneByte(n: u8)
    ensures EncodeUint(n, 1) == [n]
  {
  }

  lemma ByteIsInt(n: i8)
    ensures Pow256(1) == 0x100
    ensures EncodeInt(n, 1) == [if n < 0 then n + 0x100 else n]
  {
    Pow256Values();
    OneByte(if n < 0 then n + 0x100 else n);
  }

  lemma Wire2IsInt(n: i16)
    ensures Pow256(2) == 0x1_0000
    ensures EncodeInt(n, 2) == Wire2(if n < 0 then n + 0x1_0000 else n)
  {
    hide Wire2, ToLe;
    Pow256Values();
    Wire2IsUint(if n < 0 then n + 0x1_0000 else n);
  }

  lemma Wire4IsInt(n: i32)
    ensures Pow256(4) == 0x1_0000_0000
    ensures EncodeInt(n, 4) == Wire4(if n < 0 then n + 0x1_0000_0000 else n)
  {
    hide Wire4, ToLe;
    Pow256Values();
    Wire4IsUint(if n < 0 then n + 0x1_0000_0000 else n);
  }

  lemma Wire8IsInt(n: i64)
    ensures Pow256(8) == 0x1_0000_0000_0000_0000
    ensures EncodeInt(n, 8) == Wire8(if n < 0 then n + 0x1_0000_0000_0000_0000 else n)
  {
    hide Wire8, ToLe;
    Pow256Values();
    Wire8IsUint(if n < 0 then n + 0x1_0000_0000_0000_0000 else n);
  }

  /** What is encoded is the documented form. */
  lemma ValueOnTheWire(v: ValueType)
    requires Legal(v)
    ensures EncodeValue(v) == Wire(v)
  {
    hide EncodeUint, ToLe, Wire2, Wire4, Wire8, EncodeDate, EncodeTime, EncodeTimeZone, WireDate, WireTime;
    Pow256Values();
    match v
    case U8(n) => OneByte(n);
    case U16(n) => Wire2IsUint(n);
    case U32(n) => Wire4IsUint(n);
    case U64(n) => Wire8IsUint(n);
    case I8(n) => ByteIsInt(n);
    case I16(n) => Wire2IsInt(n);
    case I32(n) => Wire4IsInt(n);
    case I64(n) => Wire8IsInt(n);
    case F32(n) => Wire4IsUint(n);
    case F64(n) => Wire8IsUint(n);
    case Bool(_) =>
    case Bytes(b) => Wire2IsUint(|b|);
    case String(b) => Wire2IsUint(|b|);
    case Date(d) => WireFields(d, RawTime(0, 0), RawTimeZone(0));
    case Time(t) => WireFields(RawDate(0, 0, 0), t, RawTimeZone(0));
    case DateTime(d) => WireFields(d.date, d.time, d.timezone);
  }

  /** The type keys there are. */
  predicate KnownKey(key: byte) {
    key <= 14 || key == 16
  }

  /** Decoding is the inverse of the documented form, on any bytes: the front of `s` decodes to `v`, using `n` bytes, if
      and only if it is the form of `v`, `n` bytes long; and a type key is unknown exactly when it is none of the 16. */
  lemma DecodesFromTheWire(rules: ParseRules, s: seq<byte>, v: ValueType, n: nat)
    ensures DecodeValue(rules, s) == Parsed.Ok(v, n) <==>
            Legal(v) && WellTyped(rules, v) && n == |Wire(v)| && Wire(v) <= s
    ensures s != [] ==> (DecodeValue(rules, s) == Fail(UnknownTypeKey(s[0])) <==> !KnownKey(s[0]))
  {
    hide EncodeValue, Wire, DecodeBlob, DecodeFixed, Size;
    ValueCanonical(rules, s);
    if DecodeValue(rules, s) == Parsed.Ok(v, n) {
      ValueOnTheWire(v);
    } else if Legal(v) && WellTyped(rules, v) && Wire(v) <= s {
      ValueOnTheWire(v);
      assert s == EncodeValue(v) + s[|EncodeValue(v)|..];
      ValueRoundTrip(rules, v, s[|EncodeValue(v)|..]);
      assert Size(v) == |EncodeValue(v)|;
    }
    if s != [] && !KnownKey(s[0]) {
      assert DecodeValue(rules, s) == Fail(UnknownTypeKey(s[0]));
    } else if s != [] {
      KnownKeysDecode(rules, s);
    }
  }

  lemma KnownKeysDecode(rules: ParseRules, s: seq<byte>)
    requires s != [] && KnownKey(s[0])
    ensures DecodeValue(rules, s).Fail? ==> !DecodeValue(rules, s).error.UnknownTypeKey?
  {
    hide DecodeDate, DecodeTime, DecodeDateTime, NumberOf, Uint;
  }
}
