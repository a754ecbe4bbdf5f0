/** Where the sections of an object file go: `LayoutOptions`, `SectionLayout` and the claims about whole
    histories of rewrites. */
module Layout {
  import opened Outcome

  const HEADER_SIZE: nat := 32
  const DEFAULT_ALIGNMENT: nat := 32
  const DEFAULT_METADATA_RESERVE: nat := 256
  const DEFAULT_TAG_RESERVE: nat := 256
  const U16_MAX: nat := 0xFFFF
  const U32_MAX: nat := 0xFFFF_FFFF
  const USIZE_MAX: nat := 0xFFFF_FFFF_FFFF_FFFF
  const ISIZE_MAX: nat := 0x7FFF_FFFF_FFFF_FFFF

  datatype SectionLayout = SectionLayout(tagsStart: nat, contentStart: nat)

  datatype LayoutOptions = LayoutOptions(
    metadataReserve: nat,
    tagReserve: nat,
    alignment: nat,
    minContentStart: nat)

  const DEFAULT_OPTIONS := LayoutOptions(DEFAULT_METADATA_RESERVE, DEFAULT_TAG_RESERVE, DEFAULT_ALIGNMENT, 0)

  const REWRITE_RESERVE: nat := 256

  /** What `repartition` answers; `Overflows` when its `usize` arithmetic leaves the range. */
  datatype Fit = Fits(layout: SectionLayout) | NoFit | Overflows

  function Max(a: nat, b: nat): nat {
    if a >= b then a else b
  }

  function AlignUp(value: nat, alignment: nat): nat {
    var a := Max(alignment, 1);
    (value / a + if value % a > 0 then 1 else 0) * a
  }

  function Repartition(contentStart: nat, metadataSize: nat, tagsSize: nat, alignment: nat): Fit {
    var a := Max(alignment, 1);
    if HEADER_SIZE + metadataSize + tagsSize > USIZE_MAX then Overflows
    else if HEADER_SIZE + metadataSize + tagsSize > contentStart then NoFit
    else
      var aligned := AlignUp(HEADER_SIZE + metadataSize, a);
      if aligned + tagsSize > USIZE_MAX then Overflows
      else
        var tagsStart := if aligned + tagsSize <= contentStart then aligned else HEADER_SIZE + metadataSize;
        if tagsStart > U16_MAX then NoFit
        else Fits(SectionLayout(tagsStart, contentStart))
  }

  /** The layout that applies both reserves, `LayoutOptions::compute` past its early return. */
  function FreshLayout(o: LayoutOptions, metadataSize: nat, tagsSize: nat): Result<SectionLayout, FileError> {
    var a := Max(o.alignment, 1);
    var tagsStart := AlignUp(HEADER_SIZE + metadataSize + o.metadataReserve, a);
    if tagsStart > USIZE_MAX then Err(Overflow)
    else if tagsStart > U16_MAX then Err(SectionOffsetTooLarge(tagsStart, U16_MAX))
    else
      var contentStart := Max(AlignUp(tagsStart + tagsSize + o.tagReserve, a), AlignUp(o.minContentStart, a));
      if contentStart > USIZE_MAX then Err(Overflow)
      else if contentStart > U32_MAX then Err(SectionOffsetTooLarge(contentStart, U32_MAX))
      else Ok(SectionLayout(tagsStart, contentStart))
  }

  function Compute(o: LayoutOptions, metadataSize: nat, tagsSize: nat): Result<SectionLayout, FileError> {
    var a := Max(o.alignment, 1);
    if o.minContentStart == 0 then FreshLayout(o, metadataSize, tagsSize)
    else
      match Repartition(o.minContentStart, metadataSize, tagsSize, a)
      case Fits(layout) => Ok(layout)
      case Overflows => Err(Overflow)
      case NoFit => FreshLayout(o, metadataSize, tagsSize)
  }

  /** The options `finish_by_rewriting` lays the object out with. */
  function RewriteOptions(o: LayoutOptions): LayoutOptions {
    o.(metadataReserve := Max(o.metadataReserve, REWRITE_RESERVE), tagReserve := Max(o.tagReserve, REWRITE_RESERVE))
  }

  // ---- align_up ---------------------------------------------------------------------------------

  /** `AlignUp` is a multiple of the alignment, at or above the value by less than one alignment. */
  lemma AlignUpBounds(value: nat, alignment: nat)
    ensures var a := Max(alignment, 1); var r := AlignUp(value, alignment);
            r % a == 0 && value <= r < value + a && r == AlignUp(value, a)
  {
    var a := Max(alignment, 1);
    assert value == value / a * a + value % a;
    MultipleMod(value / a + if value % a > 0 then 1 else 0, a);
  }

  /** No smaller multiple will do. */
  lemma AlignUpIsLeast(value: nat, alignment: nat)
    ensures forall k: nat {:trigger k * Max(alignment, 1)} ::
              value <= k * Max(alignment, 1) ==> AlignUp(value, alignment) <= k * Max(alignment, 1)
  {
    hide AlignUp;
    var a := Max(alignment, 1);
    AlignUpBounds(value, alignment);
    forall k: nat | value <= k * a
      ensures AlignUp(value, alignment) <= k * a
    {
      NextMultiple(AlignUp(value, alignment), k, a);
    }
  }

  /** A multiple less than one alignment above another is at most that one. */
  lemma NextMultiple(r: nat, k: nat, a: nat)
    requires a > 0 && r % a == 0 && r < k * a + a
    ensures r <= k * a
  {
    var q := r / a;
    assert r == q * a;
    if q > k {
      assert (k + 1) * a == k * a + a;
      MulOrder(k + 1, q, a);
    } else {
      MulOrder(q, k, a);
    }
  }

  lemma AlignUpAtMost(value: nat, alignment: nat, bound: nat)
    requires value <= bound && bound % Max(alignment, 1) == 0
    ensures AlignUp(value, alignment) <= bound
  {
    hide AlignUp;
    AlignUpIsLeast(value, alignment);
    assert bound == bound / Max(alignment, 1) * Max(alignment, 1);
  }

  lemma MultipleMod(q: nat, a: nat)
    requires a > 0
    ensures q * a % a == 0
  {
    var x := q * a;
    var d := q - x / a;
    assert x == x / a * a + x % a;
    assert d * a == x % a;
    if d >= 1 {
      MulOrder(1, d, a);
    } else if d <= -1 {
      MulOrder(d, -1, a);
    }
  }

  lemma MulOrder(x: int, y: int, a: nat)
    requires x <= y
    ensures x * a <= y * a
  {
  }

  lemma AlignUpMonotone(v: nat, w: nat, alignment: nat)
    requires v <= w
    ensures AlignUp(v, alignment) <= AlignUp(w, alignment)
  {
    var a := Max(alignment, 1);
    AlignUpBounds(w, alignment);
    AlignUpIsLeast(v, alignment);
    var k := w / a + if w % a > 0 then 1 else 0;
    assert AlignUp(w, alignment) == k * Max(alignment, 1);
  }

  // ---- what a layout promises -------------------------------------------------------------------

  /** Both sections sit in front of the content without overlapping, and the tag offset fits its `u16`. */
  ghost predicate Sound(l: SectionLayout, metadataSize: nat, tagsSize: nat) {
    && HEADER_SIZE + metadataSize <= l.tagsStart <= U16_MAX
    && l.tagsStart + tagsSize <= l.contentStart
  }

  /** Aligning pushes the tag section out of reach of its `u16` although packing it would not. */
  predicate AlignedOffsetTooLarge(contentStart: nat, metadataSize: nat, tagsSize: nat, alignment: nat) {
    var aligned := AlignUp(HEADER_SIZE + metadataSize, alignment);
    HEADER_SIZE + metadataSize <= U16_MAX < aligned <= contentStart - tagsSize
  }

  /** Adding the tags to the aligned tag offset leaves the range of `usize`. */
  predicate AlignedSumOverflows(metadataSize: nat, tagsSize: nat, alignment: nat) {
    AlignUp(HEADER_SIZE + metadataSize, alignment) + tagsSize > USIZE_MAX
  }

  /** Exact acceptance, for every alignment: sections are accepted when some sound layout with this content offset
      exists, unless the aligned candidate is the one that does not fit, or cannot even be computed. An accepted
      layout is sound, keeps the content offset, and is aligned whenever the space allows an aligned tag section at
      all. */
  lemma RepartitionIsExact(contentStart: nat, metadataSize: nat, tagsSize: nat, alignment: nat)
    requires contentStart <= U32_MAX
    ensures Repartition(contentStart, metadataSize, tagsSize, alignment).Fits? <==>
            && (exists l: SectionLayout :: l.contentStart == contentStart && Sound(l, metadataSize, tagsSize))
            && !AlignedOffsetTooLarge(contentStart, metadataSize, tagsSize, alignment)
            && !AlignedSumOverflows(metadataSize, tagsSize, alignment)
    ensures Repartition(contentStart, metadataSize, tagsSize, alignment).Overflows? <==>
            || HEADER_SIZE + metadataSize + tagsSize > USIZE_MAX
            || (HEADER_SIZE + metadataSize + tagsSize <= contentStart
                && AlignedSumOverflows(metadataSize, tagsSize, alignment))
    ensures match Repartition(contentStart, metadataSize, tagsSize, alignment)
            case Fits(l) =>
              && l.contentStart == contentStart
              && Sound(l, metadataSize, tagsSize)
              && (l.tagsStart % Max(alignment, 1) == 0
                  || forall k: nat {:trigger k * Max(alignment, 1)} ::
                       HEADER_SIZE + metadataSize <= k * Max(alignment, 1) ==>
                         k * Max(alignment, 1) + tagsSize > contentStart)
            case _ => true
  {
    hide AlignUp;
    AlignUpBounds(HEADER_SIZE + metadataSize, alignment);
    AlignUpIsLeast(HEADER_SIZE + metadataSize, alignment);
    var packed := SectionLayout(HEADER_SIZE + metadataSize, contentStart);
    if HEADER_SIZE + metadataSize + tagsSize <= contentStart && HEADER_SIZE + metadataSize <= U16_MAX {
      assert Sound(packed, metadataSize, tagsSize);
    }
  }

  /** The tag offset that is picked, among all sound ones with this content offset: the least aligned one, or, when it
      is not aligned itself, the least of all. So it is the next multiple of the alignment at or behind the metadata,
      or lies directly behind the metadata. */
  lemma RepartitionIsLeast(contentStart: nat, metadataSize: nat, tagsSize: nat, alignment: nat, other: SectionLayout)
    requires Repartition(contentStart, metadataSize, tagsSize, alignment).Fits?
    requires Sound(other, metadataSize, tagsSize) && other.contentStart == contentStart
    ensures var a, l := Max(alignment, 1), Repartition(contentStart, metadataSize, tagsSize, alignment).layout;
            && (other.tagsStart % a == 0 || l.tagsStart % a != 0 ==> l.tagsStart <= other.tagsStart)
            && (l.tagsStart == 32 + metadataSize || (l.tagsStart % a == 0 && l.tagsStart < 32 + metadataSize + a))
  {
    hide AlignUp;
    var a := Max(alignment, 1);
    AlignUpBounds(HEADER_SIZE + metadataSize, alignment);
    if other.tagsStart % a == 0 {
      AlignUpAtMost(HEADER_SIZE + metadataSize, alignment, other.tagsStart);
    }
  }

  /** Both ways of picking, for an object created empty under the default options. */
  lemma PickedOffsets()
    ensures DEFAULT_OPTIONS == LayoutOptions(256, 256, 32, 0)
    ensures FreshLayout(DEFAULT_OPTIONS, 2, 2) == Ok(SectionLayout(320, 608))
    ensures Repartition(608, 2, 2, 32) == Fits(SectionLayout(64, 608))
    ensures Repartition(608, 300, 260, 32) == Fits(SectionLayout(332, 608))
  {
    assert AlignUp(34, 32) == 64 && AlignUp(290, 32) == 320 && AlignUp(578, 32) == 608 && AlignUp(332, 32) == 352;
    assert AlignUp(0, 32) == 0;
  }

  /** The refusal that packing would have avoided does occur. */
  lemma RepartitionRefusesPackableSections()
    ensures Sound(SectionLayout(65523, 70000), 65491, 10)
    ensures Repartition(70000, 65491, 10, 32) == NoFit
  {
    assert AlignUp(HEADER_SIZE + 65491, 32) == 65536;
  }

  /** So does an overflow on sections that fit packed, with a large enough alignment. */
  lemma RepartitionOverflowsOnPackableSections()
    ensures Sound(SectionLayout(72, 640), 40, 10) && !AlignedOffsetTooLarge(640, 40, 10, USIZE_MAX)
    ensures Repartition(640, 40, 10, USIZE_MAX) == Overflows
  {
  }

  /** Everything the options ask of a layout that is not reusing an existing prefix. */
  ghost predicate Honours(o: LayoutOptions, metadataSize: nat, tagsSize: nat, l: SectionLayout) {
    var a := Max(o.alignment, 1);
    && l.tagsStart % a == 0 && l.contentStart % a == 0
    && HEADER_SIZE + metadataSize + o.metadataReserve <= l.tagsStart <= U16_MAX
    && l.tagsStart + tagsSize + o.tagReserve <= l.contentStart <= U32_MAX
    && o.minContentStart <= l.contentStart
  }

  /** The error reports an offset the options ask for that is beyond the width of its field: the aligned end of the
      metadata with its reserve; or else a content offset, at the first multiple of the alignment at or behind the floor
      or the tags with their reserve. */
  ghost predicate TooFar(o: LayoutOptions, metadataSize: nat, tagsSize: nat, e: FileError) {
    var a, first := Max(o.alignment, 1), 32 + metadataSize + o.metadataReserve;
    && e.SectionOffsetTooLarge? && e.required > e.limit && e.required % a == 0
    && ((e.limit == 0xFFFF && first <= e.required < first + a)
        || (e.limit == 0xFFFF_FFFF && e.required >= o.minContentStart
            && (e.required < o.minContentStart + a
                || exists tagsStart: nat {:trigger tagsStart % a} ::
                     && tagsStart % a == 0 && first <= tagsStart < first + a
                     && tagsStart + tagsSize + o.tagReserve <= e.required < tagsStart + tagsSize + o.tagReserve + a)))
  }

  /** The fresh layout is the least one honouring alignment, reserves, floor and field widths, and it is
      refused only when there is none. */
  lemma FreshLayoutIsLeast(o: LayoutOptions, metadataSize: nat, tagsSize: nat, other: SectionLayout)
    ensures match FreshLayout(o, metadataSize, tagsSize)
            case Ok(l) =>
              && Honours(o, metadataSize, tagsSize, l)
              && (Honours(o, metadataSize, tagsSize, other) ==>
                    l.tagsStart <= other.tagsStart && l.contentStart <= other.contentStart)
            case Err(e) =>
              && (e.Overflow? || TooFar(o, metadataSize, tagsSize, e))
              && !Honours(o, metadataSize, tagsSize, other)
  {
    hide AlignUp;
    var a := Max(o.alignment, 1);
    var first := HEADER_SIZE + metadataSize + o.metadataReserve;
    AlignUpBounds(first, a);
    var tagsStart := AlignUp(first, a);
    var second := tagsStart + tagsSize + o.tagReserve;
    AlignUpBounds(second, a);
    AlignUpBounds(o.minContentStart, a);
    if Honours(o, metadataSize, tagsSize, other) {
      AlignUpAtMost(first, a, other.tagsStart);
      AlignUpAtMost(second, a, other.contentStart);
      AlignUpAtMost(o.minContentStart, a, other.contentStart);
    }
  }

  /** What `compute` answers, for every floor: the repartition of the floor when the sections fit in front of it or the
      attempt overflows, and otherwise the least layout that honours the options, floor included, or none when there
      is none. */
  lemma ComputeIsLeast(o: LayoutOptions, metadataSize: nat, tagsSize: nat, other: SectionLayout)
    ensures match if o.minContentStart == 0 then NoFit
                  else Repartition(o.minContentStart, metadataSize, tagsSize, o.alignment)
            case Fits(l) => Compute(o, metadataSize, tagsSize) == Ok(l)
            case Overflows => Compute(o, metadataSize, tagsSize) == Err(Overflow)
            case NoFit =>
              match Compute(o, metadataSize, tagsSize)
              case Ok(l) =>
                && Honours(o, metadataSize, tagsSize, l)
                && (Honours(o, metadataSize, tagsSize, other) ==>
                      l.tagsStart <= other.tagsStart && l.contentStart <= other.contentStart)
              case Err(_) => !Honours(o, metadataSize, tagsSize, other)
  {
    hide AlignUp, FreshLayout, Honours;
    AlignUpBounds(HEADER_SIZE + metadataSize, o.alignment);
    FreshLayoutIsLeast(o, metadataSize, tagsSize, other);
  }

  /** A computed layout is sound, within its `u32`, and not in front of the floor it was given. */
  lemma ComputeIsSound(o: LayoutOptions, metadataSize: nat, tagsSize: nat)
    requires o.minContentStart <= U32_MAX
    ensures match Compute(o, metadataSize, tagsSize)
            case Ok(l) => Sound(l, metadataSize, tagsSize) && o.minContentStart <= l.contentStart <= U32_MAX
            case Err(e) => e.Overflow? || (e.SectionOffsetTooLarge? && e.required > e.limit)
  {
    hide AlignUp;
    AlignUpBounds(HEADER_SIZE + metadataSize, o.alignment);
    FreshLayoutIsLeast(o, metadataSize, tagsSize, SectionLayout(0, 0));
  }

  /** The rewrite of `finish` is at most one deep: whatever `compute` lays out for two section sizes,
      `repartition` accepts for the same sizes without moving the content. For reserves, alignments and
      floors of any value, zero included. */
  lemma ComputeThenRepartition(o: LayoutOptions, metadataSize: nat, tagsSize: nat)
    requires o.minContentStart <= U32_MAX
    ensures match Compute(o, metadataSize, tagsSize)
            case Err(_) => true
            case Ok(l) =>
              var again := Repartition(l.contentStart, metadataSize, tagsSize, o.alignment);
              again.Fits? && again.layout.contentStart == l.contentStart
  {
    hide AlignUp;
    var a := Max(o.alignment, 1);
    AlignUpBounds(HEADER_SIZE + metadataSize, a);
    AlignUpMonotone(HEADER_SIZE + metadataSize, HEADER_SIZE + metadataSize + o.metadataReserve, a);
    var tagsStart := AlignUp(HEADER_SIZE + metadataSize + o.metadataReserve, a);
    AlignUpBounds(tagsStart + tagsSize + o.tagReserve, a);
    AlignUpBounds(o.minContentStart, a);
  }

  /** Slack is pooled: behind a fresh layout, sections whose total grew by no more than both reserves
      together are accepted however the total is split, exactly when the chosen tag offset is in reach. */
  lemma SlackIsPooled(o: LayoutOptions, m0: nat, t0: nat, m: nat, t: nat, alignment: nat)
    requires o.minContentStart <= U32_MAX
    requires FreshLayout(o, m0, t0).Ok?
    requires m + t <= m0 + o.metadataReserve + t0 + o.tagReserve
    ensures var c := FreshLayout(o, m0, t0).value.contentStart;
            Repartition(c, m, t, alignment).Fits? <==>
            HEADER_SIZE + m <= U16_MAX && !AlignedOffsetTooLarge(c, m, t, alignment)
              && !AlignedSumOverflows(m, t, alignment)
  {
    hide AlignUp;
    var a := Max(o.alignment, 1);
    AlignUpBounds(HEADER_SIZE + m0 + o.metadataReserve, a);
    var tagsStart := AlignUp(HEADER_SIZE + m0 + o.metadataReserve, a);
    AlignUpBounds(tagsStart + t0 + o.tagReserve, a);
    AlignUpBounds(HEADER_SIZE + m, alignment);
  }

  /** A layout with 256 bytes of slack behind either section, or more if the caller asked for more, at the caller's
      alignment, within the widths of the two offsets, and not in front of the caller's floor. */
  ghost predicate LeavesSlack(o: LayoutOptions, m: nat, t: nat, l: SectionLayout) {
    var a := Max(o.alignment, 1);
    && l.tagsStart % a == 0 && l.contentStart % a == 0
    && 32 + m + Max(o.metadataReserve, 256) <= l.tagsStart <= 0xFFFF
    && l.tagsStart + t + Max(o.tagReserve, 256) <= l.contentStart <= 0xFFFF_FFFF
    && o.minContentStart <= l.contentStart
  }

  /** The rewrite of `finish` when its floor does not take the sections: the content moves to where the least layout
      that leaves slack has it, and the rewrite is refused only when there is none. */
  lemma RewritesLeaveSlack(o: LayoutOptions, m: nat, t: nat, other: SectionLayout)
    requires o.minContentStart == 0 || Repartition(o.minContentStart, m, t, o.alignment).NoFit?
    ensures match Compute(RewriteOptions(o), m, t)
            case Ok(l) => LeavesSlack(o, m, t, l)
              && (LeavesSlack(o, m, t, other) ==> l.contentStart <= other.contentStart)
            case Err(_) => !LeavesSlack(o, m, t, other)
  {
    hide AlignUp, Compute;
    ComputeIsLeast(RewriteOptions(o), m, t, other);
  }

  /** What the slack is for: any later sections whose total grew by no more than it, 512 bytes at least, are accepted
      without moving the content, exactly when their tag offset is in reach. */
  lemma SlackTakesGrowth(o: LayoutOptions, m: nat, t: nat, l: SectionLayout, m': nat, t': nat, alignment: nat)
    requires LeavesSlack(o, m, t, l)
    requires m' + t' <= m + t + Max(o.metadataReserve, 256) + Max(o.tagReserve, 256)
    ensures Repartition(l.contentStart, m', t', alignment).Fits? <==>
            HEADER_SIZE + m' <= U16_MAX && !AlignedOffsetTooLarge(l.contentStart, m', t', alignment)
              && !AlignedSumOverflows(m', t', alignment)
  {
    hide AlignUp;
    AlignUpBounds(HEADER_SIZE + m', alignment);
  }

  /** A rewrite where the caller configured no reserve at all. */
  lemma UnreservedRewrite()
    ensures var o := LayoutOptions(0, 0, 1, 0);
            && FreshLayout(o, 2, 2) == Ok(SectionLayout(34, 36)) && Repartition(36, 40, 2, 1) == NoFit
            && Compute(RewriteOptions(o), 40, 2) == Ok(SectionLayout(328, 586))
            && Repartition(586, 40, 2, 1) == Fits(SectionLayout(72, 586))
            && Repartition(586, 41, 2, 1) == Fits(SectionLayout(73, 586))
  {
  }

  /** An object published with the sections it was created with, under the default options, has its tags directly behind
      its aligned metadata: the metadata reserve of the fresh layout has moved behind the tags. */
  lemma PublishedWithoutMetadataReserve(metadataSize: nat, tagsSize: nat)
    requires FreshLayout(DEFAULT_OPTIONS, metadataSize, tagsSize).Ok?
    ensures var laid := FreshLayout(DEFAULT_OPTIONS, metadataSize, tagsSize).value;
            var tagsStart := AlignUp(HEADER_SIZE + metadataSize, DEFAULT_ALIGNMENT);
            && Repartition(laid.contentStart, metadataSize, tagsSize, DEFAULT_ALIGNMENT)
               == Fits(SectionLayout(tagsStart, laid.contentStart))
            && tagsStart + DEFAULT_METADATA_RESERVE == laid.tagsStart
  {
    var m := HEADER_SIZE + metadataSize;
    assert AlignUp(m + 256, 32) == AlignUp(m, 32) + 256;
    AlignUpBounds(AlignUp(m + 256, 32) + tagsSize + 256, 32);
    AlignUpBounds(m, 32);
  }

  // ---- whole histories of rewrites --------------------------------------------------------------

  /** The content offset an atomic rewrite leaves behind; a refused one leaves the object alone. */
  function RewriteOffset(contentStart: nat, metadataSize: nat, tagsSize: nat): nat {
    match Compute(DEFAULT_OPTIONS.(minContentStart := contentStart), metadataSize, tagsSize)
    case Ok(l) => l.contentStart
    case Err(_) => contentStart
  }

  /** Where the default reserves would put the content of an object with these section sizes. */
  function DefaultOffset(metadataSize: nat, tagsSize: nat): nat {
    AlignUp(AlignUp(HEADER_SIZE + metadataSize + DEFAULT_METADATA_RESERVE, DEFAULT_ALIGNMENT)
            + tagsSize + DEFAULT_TAG_RESERVE, DEFAULT_ALIGNMENT)
  }

  /** The content offset after a sequence of rewrites with the given (metadata, tags) sizes. */
  function OffsetAfter(contentStart: nat, history: seq<(nat, nat)>): nat
    decreases |history|
  {
    if history == [] then contentStart
    else
      var last := |history| - 1;
      RewriteOffset(OffsetAfter(contentStart, history[..last]), history[last].0, history[last].1)
  }

  /** How many rewrites of the sequence moved the content. */
  function Moves(contentStart: nat, history: seq<(nat, nat)>): nat
    decreases |history|
  {
    if history == [] then 0
    else
      var before := history[..|history| - 1];
      Moves(contentStart, before)
      + if OffsetAfter(contentStart, history) == OffsetAfter(contentStart, before) then 0 else 1
  }

  /** One rewrite keeps the offset, or adds more than both reserves and lands on the fresh layout. */
  lemma RewriteKeepsOrLandsFresh(contentStart: nat, metadataSize: nat, tagsSize: nat)
    requires contentStart <= U32_MAX
    ensures var next := RewriteOffset(contentStart, metadataSize, tagsSize);
            && next <= U32_MAX
            && (next == contentStart
                || (next == DefaultOffset(metadataSize, tagsSize)
                    && next > contentStart + DEFAULT_METADATA_RESERVE + DEFAULT_TAG_RESERVE))
  {
    hide AlignUp;
    AlignUpBounds(HEADER_SIZE + metadataSize, 32);
    AlignUpMonotone(HEADER_SIZE + metadataSize, HEADER_SIZE + metadataSize + 256, 32);
    AlignUpBounds(HEADER_SIZE + metadataSize + 256, 32);
    var tagsStart := AlignUp(HEADER_SIZE + metadataSize + 256, 32);
    AlignUpBounds(tagsStart + tagsSize + 256, 32);
    AlignUpBounds(contentStart, 32);
    if contentStart <= tagsStart + tagsSize + 256 {
      AlignUpMonotone(contentStart, tagsStart + tagsSize + 256, 32);
    }
  }

  lemma DefaultOffsetMonotone(m: nat, t: nat, M: nat, T: nat)
    requires m <= M && t <= T
    ensures DefaultOffset(m, t) <= DefaultOffset(M, T)
  {
    hide AlignUp;
    AlignUpMonotone(HEADER_SIZE + m + 256, HEADER_SIZE + M + 256, 32);
    AlignUpMonotone(AlignUp(HEADER_SIZE + m + 256, 32) + t + 256, AlignUp(HEADER_SIZE + M + 256, 32) + T + 256, 32);
  }

  /** No creep: over any sequence of rewrites whose sections stay within `M` and `T`, the content
      offset never falls, never passes the larger of where it began and the fresh layout of `M` and
      `T`, and moves at most once per 513 bytes of that distance. */
  lemma {:induction false} NoCreep(contentStart: nat, history: seq<(nat, nat)>, M: nat, T: nat)
    requires contentStart <= U32_MAX
    requires forall i :: 0 <= i < |history| ==> history[i].0 <= M && history[i].1 <= T
    ensures contentStart <= OffsetAfter(contentStart, history) <= Max(contentStart, DefaultOffset(M, T))
    ensures Moves(contentStart, history) * 513 <= OffsetAfter(contentStart, history) - contentStart
    ensures OffsetAfter(contentStart, history) <= U32_MAX
    decreases |history|
  {
    hide RewriteOffset, DefaultOffset;
    if history != [] {
      var last := |history| - 1;
      var (m, t) := history[last];
      NoCreep(contentStart, history[..last], M, T);
      RewriteKeepsOrLandsFresh(OffsetAfter(contentStart, history[..last]), m, t);
      DefaultOffsetMonotone(m, t, M, T);
    }
  }

  // ---- builds without overflow checks -----------------------------------------------------------

  function Wrap(n: nat): (w: nat)
    ensures w <= USIZE_MAX
    ensures n <= USIZE_MAX ==> w == n
  {
    n % (USIZE_MAX + 1)
  }

  /** `Repartition` when `usize` sums and products wrap around instead of panicking. */
  function RepartitionWrapping(contentStart: nat, metadataSize: nat, tagsSize: nat, alignment: nat): Fit {
    var a := Max(alignment, 1);
    if Wrap(HEADER_SIZE + metadataSize + tagsSize) > contentStart then NoFit
    else
      var aligned := Wrap(AlignUp(Wrap(HEADER_SIZE + metadataSize), a));
      var tagsStart := if Wrap(aligned + tagsSize) <= contentStart then aligned else Wrap(HEADER_SIZE + metadataSize);
      if tagsStart > U16_MAX then NoFit
      else Fits(SectionLayout(tagsStart, contentStart))
  }

  function FreshLayoutWrapping(o: LayoutOptions, metadataSize: nat, tagsSize: nat): Result<SectionLayout, FileError> {
    var a := Max(o.alignment, 1);
    var tagsStart := Wrap(AlignUp(Wrap(HEADER_SIZE + metadataSize + o.metadataReserve), a));
    if tagsStart > U16_MAX then Err(SectionOffsetTooLarge(tagsStart, U16_MAX))
    else
      var contentStart := Max(Wrap(AlignUp(Wrap(tagsStart + tagsSize + o.tagReserve), a)),
                              Wrap(AlignUp(o.minContentStart, a)));
      if contentStart > U32_MAX then Err(SectionOffsetTooLarge(contentStart, U32_MAX))
      else Ok(SectionLayout(tagsStart, contentStart))
  }

  function ComputeWrapping(o: LayoutOptions, metadataSize: nat, tagsSize: nat): Result<SectionLayout, FileError> {
    if o.minContentStart == 0 then FreshLayoutWrapping(o, metadataSize, tagsSize)
    else
      match RepartitionWrapping(o.minContentStart, metadataSize, tagsSize, o.alignment)
      case Fits(layout) => Ok(layout)
      case _ => FreshLayoutWrapping(o, metadataSize, tagsSize)
  }

  /** What an allocated pair of maps guarantees of the sizes: the bytes they encode to are in memory. */
  predicate InMemory(metadataSize: nat, tagsSize: nat) {
    HEADER_SIZE + metadataSize + tagsSize <= USIZE_MAX
  }

  /** The room a content offset has for two sections, and the reach of the tag offset `repartition` picks. */
  predicate HasRoom(contentStart: nat, metadataSize: nat, tagsSize: nat, alignment: nat) {
    && HEADER_SIZE + metadataSize + tagsSize <= contentStart
    && HEADER_SIZE + metadataSize <= U16_MAX
    && !AlignedOffsetTooLarge(contentStart, metadataSize, tagsSize, alignment)
    && !AlignedSumOverflows(metadataSize, tagsSize, alignment)
  }

  /** The two builds repartition alike, except that the wrapping one refuses where the checking one panics. */
  lemma RepartitionsAgree(contentStart: nat, metadataSize: nat, tagsSize: nat, alignment: nat)
    requires contentStart <= U32_MAX && alignment <= USIZE_MAX && InMemory(metadataSize, tagsSize)
    ensures RepartitionWrapping(contentStart, metadataSize, tagsSize, alignment)
         == match Repartition(contentStart, metadataSize, tagsSize, alignment)
            case Overflows => NoFit
            case fit => fit
    ensures RepartitionWrapping(contentStart, metadataSize, tagsSize, alignment).Fits? <==>
            HasRoom(contentStart, metadataSize, tagsSize, alignment)
  {
    hide AlignUp, Wrap;
    var first := HEADER_SIZE + metadataSize;
    AlignUpBounds(first, alignment);
    if first + tagsSize <= contentStart {
      SmallAlignUp(first, alignment);
      WrappedSum(AlignUp(first, alignment), tagsSize);
    }
  }

  /** Rounding up a small value leaves the range for no alignment. */
  lemma SmallAlignUp(value: nat, alignment: nat)
    requires 0 < value <= U32_MAX && alignment <= USIZE_MAX
    ensures AlignUp(value, alignment) <= USIZE_MAX
  {
    hide AlignUp;
    AlignUpBounds(value, alignment);
    if value <= alignment {
      SingleMultiple(value, alignment);
    }
  }

  lemma SingleMultiple(value: nat, alignment: nat)
    requires 0 < value <= alignment
    ensures AlignUp(value, alignment) == alignment
  {
    if value == alignment {
      assert value / alignment == 1 && value % alignment == 0;
    } else {
      assert value / alignment == 0 && value % alignment == value;
    }
  }

  lemma WrappedSum(x: nat, y: nat)
    requires x <= USIZE_MAX && y <= USIZE_MAX
    ensures x + y > USIZE_MAX ==> Wrap(x + y) == x + y - USIZE_MAX - 1
  {
  }

  /** When the one-deep bound holds in a build without overflow checks, exactly: the sections a layout was computed
      for are accepted again if and only if its content offset has room for them. */
  lemma OneDeepWhenWrapping(o: LayoutOptions, metadataSize: nat, tagsSize: nat)
    requires o.minContentStart <= U32_MAX && o.alignment <= USIZE_MAX && InMemory(metadataSize, tagsSize)
    ensures match ComputeWrapping(o, metadataSize, tagsSize)
            case Err(_) => true
            case Ok(l) =>
              && l.contentStart <= U32_MAX
              && (RepartitionWrapping(l.contentStart, metadataSize, tagsSize, o.alignment).Fits? <==>
                  HasRoom(l.contentStart, metadataSize, tagsSize, o.alignment))
              && (o.minContentStart > 0 && HasRoom(o.minContentStart, metadataSize, tagsSize, o.alignment) ==>
                  l.contentStart == o.minContentStart)
  {
    hide RepartitionWrapping, HasRoom, FreshLayoutWrapping;
    FreshWrappingIsSmall(o, metadataSize, tagsSize);
    RepartitionsAgree(o.minContentStart, metadataSize, tagsSize, o.alignment);
    RepartitionWrappingKeeps(o.minContentStart, metadataSize, tagsSize, o.alignment);
    if ComputeWrapping(o, metadataSize, tagsSize).Ok? {
      RepartitionsAgree(ComputeWrapping(o, metadataSize, tagsSize).value.contentStart, metadataSize, tagsSize,
                        o.alignment);
    }
  }

  lemma FreshWrappingIsSmall(o: LayoutOptions, metadataSize: nat, tagsSize: nat)
    ensures FreshLayoutWrapping(o, metadataSize, tagsSize).Ok? ==>
              FreshLayoutWrapping(o, metadataSize, tagsSize).value.contentStart <= U32_MAX
  {
    hide AlignUp, Wrap;
  }

  lemma RepartitionWrappingKeeps(contentStart: nat, metadataSize: nat, tagsSize: nat, alignment: nat)
    ensures RepartitionWrapping(contentStart, metadataSize, tagsSize, alignment).Fits? ==>
              RepartitionWrapping(contentStart, metadataSize, tagsSize, alignment).layout.contentStart == contentStart
    ensures !RepartitionWrapping(contentStart, metadataSize, tagsSize, alignment).Overflows?
  {
    hide AlignUp, Wrap;
  }

  /** `finish` of content at this offset, in a build without overflow checks, publishes or fails after at most
      `rewrites` rewrites. A rewrite fails when it cannot be laid out, and when the copy of the content into the
      replacement is refused, which it is when the content is compressed and not empty. */
  predicate SettlesWithin(o: LayoutOptions, contentStart: nat, metadataSize: nat, tagsSize: nat, copyRefused: bool,
                          rewrites: nat)
    decreases rewrites
  {
    || RepartitionWrapping(contentStart, metadataSize, tagsSize, o.alignment).Fits?
    || (rewrites > 0
        && (copyRefused
            || match ComputeWrapping(RewriteOptions(o), metadataSize, tagsSize)
               case Err(_) => true
               case Ok(l) => SettlesWithin(RewriteOptions(o), l.contentStart, metadataSize, tagsSize, copyRefused,
                                           rewrites - 1)))
  }

  /** Whether `finish` comes to an end without overflow checks, exactly: the sections fit where the content is, or the
      content cannot be copied, or the rewrite cannot be laid out, or it is laid out with room for the sections. Any
      other rewrite is followed by the same rewrite for ever. */
  lemma FinishEndsExactly(o: LayoutOptions, contentStart: nat, metadataSize: nat, tagsSize: nat, copyRefused: bool)
    requires contentStart <= U32_MAX && o.minContentStart <= U32_MAX && o.alignment <= USIZE_MAX
    requires InMemory(metadataSize, tagsSize)
    ensures (exists n: nat :: SettlesWithin(o, contentStart, metadataSize, tagsSize, copyRefused, n)) <==>
            || HasRoom(contentStart, metadataSize, tagsSize, o.alignment)
            || copyRefused
            || match ComputeWrapping(RewriteOptions(o), metadataSize, tagsSize)
               case Err(_) => true
               case Ok(l) => HasRoom(l.contentStart, metadataSize, tagsSize, o.alignment)
  {
    hide RepartitionWrapping, HasRoom, ComputeWrapping, SettlesWithin;
    RepartitionsAgree(contentStart, metadataSize, tagsSize, o.alignment);
    var again := RewriteOptions(o);
    OneDeepWhenWrapping(again, metadataSize, tagsSize);
    SettlesOnce(o, contentStart, metadataSize, tagsSize, copyRefused);
    if !SettlesWithin(o, contentStart, metadataSize, tagsSize, copyRefused, 1) {
      forall n: nat
        ensures !SettlesWithin(o, contentStart, metadataSize, tagsSize, copyRefused, n)
      {
        NeverSettlesAfterwards(o, contentStart, metadataSize, tagsSize, copyRefused, n);
      }
    }
  }

  lemma SettlesOnce(o: LayoutOptions, contentStart: nat, metadataSize: nat, tagsSize: nat, copyRefused: bool)
    ensures SettlesWithin(o, contentStart, metadataSize, tagsSize, copyRefused, 1) <==>
            || RepartitionWrapping(contentStart, metadataSize, tagsSize, o.alignment).Fits?
            || copyRefused
            || match ComputeWrapping(RewriteOptions(o), metadataSize, tagsSize)
               case Err(_) => true
               case Ok(l) => RepartitionWrapping(l.contentStart, metadataSize, tagsSize, o.alignment).Fits?
  {
    hide RepartitionWrapping, ComputeWrapping;
  }

  lemma NeverSettlesAfterwards(o: LayoutOptions, contentStart: nat, metadataSize: nat, tagsSize: nat,
                               copyRefused: bool, n: nat)
    requires !SettlesWithin(o, contentStart, metadataSize, tagsSize, copyRefused, 1)
    ensures !SettlesWithin(o, contentStart, metadataSize, tagsSize, copyRefused, n)
  {
    hide RepartitionWrapping, ComputeWrapping;
    SettlesOnce(o, contentStart, metadataSize, tagsSize, copyRefused);
    if n > 0 {
      var again := RewriteOptions(o);
      NeverSettles(again, ComputeWrapping(again, metadataSize, tagsSize).value.contentStart, metadataSize, tagsSize,
                   n - 1);
    }
  }

  lemma {:induction false} NeverSettles(o: LayoutOptions, contentStart: nat, metadataSize: nat, tagsSize: nat, n: nat)
    requires RewriteOptions(o) == o
    requires ComputeWrapping(o, metadataSize, tagsSize).Ok?
    requires ComputeWrapping(o, metadataSize, tagsSize).value.contentStart == contentStart
    requires !RepartitionWrapping(contentStart, metadataSize, tagsSize, o.alignment).Fits?
    ensures !SettlesWithin(o, contentStart, metadataSize, tagsSize, false, n)
  {
    hide RepartitionWrapping, ComputeWrapping;
    if n > 0 {
      NeverSettles(o, contentStart, metadataSize, tagsSize, n - 1);
    }
  }

  /** Without overflow checks the bound fails: reserves just below 2^64 produce a layout that the very sections it was
      computed for do not fit, and `finish` rewrites without end, where a checking build panics. */
  lemma WrappedReservesAreRefused()
    ensures var o := LayoutOptions(USIZE_MAX - 31, USIZE_MAX - 15, 1, 0);
            && FreshLayout(o, 40, 10) == Err(Overflow)
            && ComputeWrapping(o, 40, 10) == Ok(SectionLayout(40, 34))
            && forall n: nat :: !SettlesWithin(o, 34, 40, 10, false, n)
  {
    var o := LayoutOptions(USIZE_MAX - 31, USIZE_MAX - 15, 1, 0);
    assert ComputeWrapping(o, 40, 10) == Ok(SectionLayout(40, 34));
    forall n: nat
      ensures !SettlesWithin(o, 34, 40, 10, false, n)
    {
      NeverSettles(o, 34, 40, 10, n);
    }
  }

  /** A sum that wraps is not always harmful. */
  lemma HarmlessWrap()
    ensures var o := LayoutOptions(USIZE_MAX, 256, 32, 0);
            && FreshLayout(o, 9, 10) == Err(Overflow)
            && ComputeWrapping(o, 9, 10).Ok?
            && SettlesWithin(o, ComputeWrapping(o, 9, 10).value.contentStart, 9, 10, false, 0)
  {
    var o := LayoutOptions(USIZE_MAX, 256, 32, 0);
    assert Wrap(HEADER_SIZE + 9 + USIZE_MAX) == 40;
    assert AlignUp(40, 32) == 64 && AlignUp(330, 32) == 352 && AlignUp(0, 32) == 0 && AlignUp(41, 32) == 64;
    assert FreshLayoutWrapping(o, 9, 10) == Ok(SectionLayout(64, 352));
  }

  /** The two builds agree, in answers and in errors, exactly as long as the checking one does not panic. */
  lemma WrappingAgreesWithinRange(o: LayoutOptions, metadataSize: nat, tagsSize: nat)
    requires o.minContentStart <= U32_MAX && o.alignment <= USIZE_MAX && InMemory(metadataSize, tagsSize)
    ensures ComputeWrapping(o, metadataSize, tagsSize) == Compute(o, metadataSize, tagsSize) <==>
            Compute(o, metadataSize, tagsSize) != Err(Overflow)
  {
    hide AlignUp, Wrap;
    RepartitionsAgree(o.minContentStart, metadataSize, tagsSize, o.alignment);
    var a := Max(o.alignment, 1);
    var first := HEADER_SIZE + metadataSize + o.metadataReserve;
    AlignUpBounds(first, a);
    var tagsStart := AlignUp(first, a);
    AlignUpBounds(tagsStart + tagsSize + o.tagReserve, a);
  }
}
