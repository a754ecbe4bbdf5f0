/** Objects on the file system: `ObjectWriter` streams a new one, `TuxObject` reads and updates one. */
module ObjectFiles {
  import opened Outcome
  import opened Bytes
  import opened Values
  import opened Blocks
  import opened Layout
  import opened Objects
  import opened Streams
  import opened Prefixes
  import opened Disks
  import opened FileSystems
  import opened ContentReaders

  datatype CreateOptions = CreateOptions(
    metadata: Map,
    tags: Map,
    layout: LayoutOptions,
    compression: CompressionType,
    sync: bool)

  /** What the types of the source guarantee of the options. */
  ghost predicate WellTypedOptions(rules: TextRules, o: CreateOptions) {
    && WellTypedMap(rules, MetaKey, o.metadata) && WellTypedMap(rules, TagKey, o.tags)
    && o.layout.minContentStart <= U32_MAX
  }

  predicate Supported(fs: FileSystem, c: CompressionType) {
    match c
    case NoCompression => true
    case Zstd(_) => fs.zstd
    case Gzip(_) => fs.gzip
  }

  // ---- effects on the file system ---------------------------------------------------------------

  /** No file that existed was touched, except those listed. */
  ghost predicate Kept(s0: Snapshot, s1: Snapshot, except: set<nat>) {
    forall i :: i in s0.files && i !in except ==> i in s1.files && s1.files[i] == s0.files[i]
  }

  /** One file's bytes changed, and nothing else. */
  ghost predicate OnlyFile(s0: Snapshot, s1: Snapshot, ino: nat) {
    ino in s1.files && s1 == s0.(files := s0.files[ino := s1.files[ino]])
  }

  /** A writer came into being: a new file under a temporary name that did not exist, and nothing else. */
  ghost predicate Began(s0: Snapshot, s1: Snapshot, temp: Path, ino: nat) {
    && temp !in s0.entries && ino !in s0.files && ino in s1.files
    && s1.entries == s0.entries[temp := ino] && s1.published == s0.published && Kept(s0, s1, {})
  }

  /** No entry, no rename and no file that existed changed. */
  ghost predicate NoTrace(s0: Snapshot, s1: Snapshot) {
    s1.entries == s0.entries && s1.published == s0.published && Kept(s0, s1, {})
  }

  lemma BeganKeeps(s0: Snapshot, s1: Snapshot, temp: Path, ino: nat, other: nat)
    requires Began(s0, s1, temp, ino) && other in s0.files
    ensures other != ino && other in s1.files && s1.files[other] == s0.files[other]
  {
  }

  lemma NoTraceKeeps(s0: Snapshot, s1: Snapshot, other: nat)
    requires NoTrace(s0, s1) && other in s0.files
    ensures other in s1.files && s1.files[other] == s0.files[other]
  {
  }

  lemma BeganWrites(s0: Snapshot, s1: Snapshot, s2: Snapshot, temp: Path, ino: nat)
    requires Began(s0, s1, temp, ino) && OnlyFile(s1, s2, ino)
    ensures Began(s0, s2, temp, ino)
  {
  }

  lemma BeganDropped(s0: Snapshot, s1: Snapshot, s2: Snapshot, temp: Path, ino: nat)
    requires Began(s0, s1, temp, ino) && s2 == s1.(entries := s1.entries - {temp})
    ensures NoTrace(s0, s2)
  {
    assert s0.entries[temp := ino] - {temp} == s0.entries;
  }

  /** A write was given up: its temporary entry is gone, and no name and no other file changed. */
  ghost predicate Abandoned(s0: Snapshot, s1: Snapshot, temp: Path, ino: nat) {
    s1.entries == s0.entries - {temp} && s1.published == s0.published && Kept(s0, s1, {ino})
  }

  /** One rename happened: the name now holds `ino`, as it was when renamed; the temporary entry is gone, and no other
      name and no other file changed. */
  ghost predicate Replaced(s0: Snapshot, s1: Snapshot, name: string, ino: nat, temp: Path, mine: nat) {
    && ino in s1.files
    && s1.entries == (s0.entries - {temp})[Object(name) := ino]
    && s1.published == s0.published + [Publication(Object(name), s1.files[ino])]
    && Kept(s0, s1, {mine})
  }

  lemma BeganAbandoned(s0: Snapshot, s1: Snapshot, s2: Snapshot, temp: Path, ino: nat)
    requires Began(s0, s1, temp, ino) && Abandoned(s1, s2, temp, ino)
    ensures NoTrace(s0, s2)
  {
    assert s0.entries[temp := ino] - {temp} == s0.entries;
  }

  /** Work on one file, given up. */
  lemma WorkAbandoned(s0: Snapshot, s1: Snapshot, s2: Snapshot, temp: Path, ino: nat)
    requires OnlyFile(s0, s1, ino) && s2 == s1.(entries := s1.entries - {temp})
    ensures Abandoned(s0, s2, temp, ino)
  {
  }

  /** Work on one file, renamed over a name. */
  lemma WorkPublished(s0: Snapshot, s1: Snapshot, s2: Snapshot, name: string, temp: Path, ino: nat)
    requires OnlyFile(s0, s1, ino) && s2.files == s1.files
    requires s2.entries == (s1.entries - {temp})[Object(name) := ino]
    requires s2.published == s1.published + [Publication(Object(name), s2.files[ino])]
    ensures Replaced(s0, s2, name, ino, temp, ino)
  {
  }

  // ---- what a writer is about to publish --------------------------------------------------------

  /** Everything that decides what `finish` publishes. */
  datatype Plan = Plan(
    name: string,
    contentStart: nat,
    options: LayoutOptions,
    compression: CompressionType,
    metadata: Map,
    tags: Map,
    content: seq<byte>,
    sync: bool)

  ghost function PlannedFit(p: Plan): Fit {
    Repartition(p.contentStart, MapSize(p.metadata), MapSize(p.tags), p.options.alignment)
  }

  /** The sections have outgrown the prefix the content was streamed behind. */
  ghost predicate NeedsRewrite(p: Plan) {
    PlannedFit(p).NoFit?
  }

  /** The layout `finish` publishes with: the sections repartitioned in front of the content, or, when they do not fit
      there, in front of where a layout computed with the rewrite reserves puts it. */
  ghost predicate FinalLayout(p: Plan, l: SectionLayout) {
    match PlannedFit(p)
    case Fits(fit) => l == fit
    case Overflows => false
    case NoFit =>
      var again := Compute(RewriteOptions(p.options), MapSize(p.metadata), MapSize(p.tags));
      again.Ok? && Fits(l) == PlannedFit(p.(contentStart := again.value.contentStart))
  }

  /** Why no writer is created, other than by the system: the codec, the layout, or the lack of a
      temporary name. */
  ghost predicate CreationRefused(fs: FileSystem, names: Names, o: CreateOptions, e: FileError) {
    if !Supported(fs, o.compression) then e == UnsupportedCompression
    else
      match Compute(o.layout, MapSize(o.metadata), MapSize(o.tags))
      case Err(layoutError) => e == layoutError
      case Ok(_) => names.AllTaken? && e == IO(NamesExhausted)
  }

  /** Stored bytes can be copied into a new writer: not through the guard of a compressed one, unless there are none. */
  predicate Copyable(c: CompressionType, content: seq<byte>) {
    c.NoCompression? || content == []
  }

  /** Why no writer is created and filled with this content. */
  ghost predicate FillRefused(fs: FileSystem, names: Names, o: CreateOptions, content: seq<byte>, e: FileError) {
    || CreationRefused(fs, names, o, e)
    || (&& Supported(fs, o.compression) && Compute(o.layout, MapSize(o.metadata), MapSize(o.tags)).Ok?
        && names.SomeFree?
        && !Copyable(o.compression, content) && e == RawWriteRefused)
  }

  /** Why `finish` publishes nothing, other than by the system: for these reasons, in this order, and for no other. */
  ghost predicate PlanRefused(p: Plan, names: Names, e: FileError) {
    match PlannedFit(p)
    case Overflows => e == Overflow
    case Fits(_) => Unencodable(p.metadata, p.tags, e)
    case NoFit =>
      match Compute(RewriteOptions(p.options), MapSize(p.metadata), MapSize(p.tags))
      case Err(layoutError) => e == layoutError
      case Ok(_) =>
        if names.AllTaken? then e == IO(NamesExhausted)
        else if !Copyable(p.compression, p.content) then e == RawWriteRefused
        else Unencodable(p.metadata, p.tags, e)
  }

  /** How `finish` answers for a plan, the count of refused calls going from `before` to `now`: an error of the system
      comes out of a refused call, any other is the reason why the plan is refused; and a plan that is published, if
      only to fail at duplicating the handle, is refused for no reason. */
  ghost predicate Answered(p: Plan, names: Names, answer: Option<FileError>, before: nat, now: nat) {
    && before <= now
    && (answer.Some? ==> if BySystem(answer.value) then before < now else PlanRefused(p, names, answer.value))
    && (answer in {None, Some(IO(Call.Duplicate))} ==> forall e :: !PlanRefused(p, names, e))
  }

  function ErrorOf<T>(r: Result<T, FileError>): Option<FileError> {
    match r
    case Ok(_) => None
    case Err(e) => Some(e)
  }

  lemma AnsweredLater(p: Plan, names: Names, answer: Option<FileError>, before: nat, later: nat, now: nat)
    requires Answered(p, names, answer, before, later) && later <= now
    ensures Answered(p, names, answer, before, now)
    ensures answer == Some(IO(Call.Duplicate)) ==> Answered(p, names, None, before, now)
    ensures answer.Some? && BySystem(answer.value) ==> before < now
  {
    hide PlanRefused;
  }

  /** On a system that refused nothing, a plan is published if and only if there is no reason to refuse it. */
  lemma PublishedExactly(p: Plan, names: Names, answer: Option<FileError>, count: nat)
    requires Answered(p, names, answer, count, count)
    ensures answer == None <==> forall e :: !PlanRefused(p, names, e)
  {
    hide PlanRefused;
  }

  /** Why an atomic update is not carried out, other than by the system. */
  ghost predicate UpdateRefused(fs: FileSystem, names: Names, writable: bool, h: ObjectHeader, m: Map, t: Map,
                                content: seq<byte>, e: FileError)
  {
    if !writable then e == ReadOnly
    else if !Supported(fs, h.compression) then e == UnsupportedCompression
    else
      match Compute(DEFAULT_OPTIONS.(minContentStart := h.contentStart), MapSize(m), MapSize(t))
      case Err(layoutError) => e == layoutError
      case Ok(_) =>
        if names.AllTaken? then e == IO(NamesExhausted)
        else if !Copyable(h.compression, content) then e == RawWriteRefused
        else Unencodable(m, t, e)
  }

  /** The object that `finish` makes of a plan: a complete one with the last metadata, the last tags and the accepted
      content, under the final layout, flushed when asked to. Compressed content never goes through a rewrite. */
  ghost predicate Fulfils(p: Plan, h: ObjectHeader, file: Inode) {
    && FinalLayout(p, h.Layout())
    && h.version == CURRENT_VERSION && h.compression == p.compression && h.bitFlags == 0
    && IsObject(file.bytes, h, p.metadata, p.tags, p.content)
    && (p.sync ==> file.synced)
    && (NeedsRewrite(p) ==> Copyable(p.compression, p.content))
  }

  /** The other direction: a plan that is refused for any reason but the lack of a name is never fulfilled. */
  lemma RefusedPlansAreNotFulfilled(p: Plan, names: Names, e: FileError, h: ObjectHeader, file: Inode)
    requires PlanRefused(p, names, e) && !e.IO?
    ensures !Fulfils(p, h, file)
  {
    hide MapSize, LegalMap, Compute, Repartition;
  }

  /** What a rewrite publishes when the caller's floor does not take the sections: an object whose content lies where
      the least layout that leaves slack has it, so that any later sections whose total grew by no more than the
      slack, 512 bytes at least, do not move it, as long as their tag offset is in reach. */
  lemma RewrittenObjectsHaveSlack(p: Plan, h: ObjectHeader, file: Inode, other: SectionLayout, m': Map, t': Map,
                                  alignment: nat)
    requires Fulfils(p, h, file) && NeedsRewrite(p) && !FloorFits(p)
    ensures var o, m, t := p.options, MapSize(p.metadata), MapSize(p.tags);
            && (exists l: SectionLayout :: l.contentStart == h.contentStart && LeavesSlack(o, m, t, l))
            && (LeavesSlack(o, m, t, other) ==> h.contentStart <= other.contentStart)
            && (MapSize(m') + MapSize(t') <= m + t + Max(o.metadataReserve, 256) + Max(o.tagReserve, 256) ==>
                  (Repartition(h.contentStart, MapSize(m'), MapSize(t'), alignment).Fits? <==>
                   && HEADER_SIZE + MapSize(m') <= U16_MAX
                   && !AlignedOffsetTooLarge(h.contentStart, MapSize(m'), MapSize(t'), alignment)
                   && !AlignedSumOverflows(MapSize(m'), MapSize(t'), alignment)))
  {
    hide MapSize, LegalMap, Repartition, IsObject, AlignedOffsetTooLarge, AlignedSumOverflows, LeavesSlack,
      RewriteOptions;
    var o, m, t := p.options, MapSize(p.metadata), MapSize(p.tags);
    assert o.minContentStart == 0 || Repartition(o.minContentStart, m, t, o.alignment).NoFit? by {
      FloorOfRewrite(o, m, t);
    }
    RewritesLeaveSlack(o, m, t, other);
    var l := Compute(RewriteOptions(o), m, t).value;
    RepartitionIsSound(l.contentStart, m, t, o.alignment);
    if MapSize(m') + MapSize(t') <= m + t + Max(o.metadataReserve, 256) + Max(o.tagReserve, 256) {
      SlackTakesGrowth(o, m, t, l, MapSize(m'), MapSize(t'), alignment);
    }
  }

  /** The sections fit in front of the floor the caller gave. */
  ghost predicate FloorFits(p: Plan) {
    && p.options.minContentStart > 0
    && Repartition(p.options.minContentStart, MapSize(p.metadata), MapSize(p.tags), p.options.alignment).Fits?
  }

  lemma FloorOfRewrite(o: LayoutOptions, m: nat, t: nat)
    ensures Repartition(o.minContentStart, m, t, o.alignment).Overflows? && o.minContentStart > 0 ==>
              Compute(RewriteOptions(o), m, t) == Err(Overflow)
  {
    hide AlignUp;
    AlignUpBounds(HEADER_SIZE + m, o.alignment);
  }

  /** A rewrite that is refused for its layout has no layout that leaves slack. */
  lemma RefusedRewritesHaveNoRoom(p: Plan, names: Names, e: FileError, other: SectionLayout)
    requires PlanRefused(p, names, e) && NeedsRewrite(p) && (e.Overflow? || e.SectionOffsetTooLarge?)
    requires p.options.minContentStart == 0
             || Repartition(p.options.minContentStart, MapSize(p.metadata), MapSize(p.tags), p.options.alignment).NoFit?
    ensures !LeavesSlack(p.options, MapSize(p.metadata), MapSize(p.tags), other)
  {
    hide MapSize, LegalMap, Repartition, Compute, LeavesSlack;
    RewritesLeaveSlack(p.options, MapSize(p.metadata), MapSize(p.tags), other);
  }

  /** A successful `finish`, from one snapshot to the next. */
  ghost predicate Published(p: Plan, h: ObjectHeader, ino: nat, s0: Snapshot, s1: Snapshot, temp: Path, mine: nat) {
    && Replaced(s0, s1, p.name, ino, temp, mine)
    && Fulfils(p, h, s1.files[ino])
    && (ino == mine || ino !in s0.files)
  }

  /** What an atomic setter publishes for an object with this file and header: the new sections, the content as stored,
      with the present prefix as a floor. */
  ghost function AtomicPlan(name: string, file: seq<byte>, h: ObjectHeader, m: Map, t: Map): Plan {
    Plan(name, RewriteOffset(h.contentStart, MapSize(m), MapSize(t)),
         DEFAULT_OPTIONS.(minContentStart := h.contentStart), h.compression, m, t, StoredContent(file, h), true)
  }

  /** A rewrite's outcome: the name holds a new file with the object the plan describes. */
  ghost predicate Rewrote(p: Plan, h: ObjectHeader, ino: nat, s0: Snapshot, s1: Snapshot) {
    && ino in s1.files && ino !in s0.files
    && s1.entries == s0.entries[Object(p.name) := ino]
    && s1.published == s0.published + [Publication(Object(p.name), s1.files[ino])]
    && Kept(s0, s1, {})
    && Fulfils(p, h, s1.files[ino])
  }

  lemma RewroteObject(p: Plan, h: ObjectHeader, ino: nat, s0: Snapshot, s1: Snapshot)
    requires Rewrote(p, h, ino, s0, s1)
    ensures ino in s1.files && IsObject(s1.files[ino].bytes, h, p.metadata, p.tags, p.content)
  {
  }

  /** A second writer's success, between its creation and the end of the first, is the first writer's success. */
  lemma RewritePublishes(p: Plan, p': Plan, h: ObjectHeader, ino: nat, s0: Snapshot, s1: Snapshot, s2: Snapshot,
                         s3: Snapshot, t1: Path, t2: Path, mine: nat, ino': nat)
    requires t1.Temp? && t2.Temp? && mine in s0.files && Began(s0, s1, t2, ino')
    requires Published(p', h, ino, s1, s2, t2, ino')
    requires s3 == s2.(entries := s2.entries - {t1})
    requires NeedsRewrite(p) && Copyable(p.compression, p.content)
    requires Compute(RewriteOptions(p.options), MapSize(p.metadata), MapSize(p.tags)).Ok?
    requires p' == p.(options := RewriteOptions(p.options),
                      contentStart := Compute(RewriteOptions(p.options), MapSize(p.metadata),
                                              MapSize(p.tags)).value.contentStart)
    requires !NeedsRewrite(p')
    ensures Published(p, h, ino, s0, s3, t1, mine)
  {
    hide IsObject, MapSize, Compute, Repartition;
    assert s3.entries == (s0.entries - {t1})[Object(p.name) := ino];
    assert PlannedFit(p') == PlannedFit(p.(contentStart := p'.contentStart));
  }

  lemma NothingRewritten(s0: Snapshot, s1: Snapshot, s2: Snapshot, t1: Path, mine: nat)
    requires NoTrace(s0, s1) && s2 == s1.(entries := s1.entries - {t1})
    ensures Abandoned(s0, s2, t1, mine)
  {
  }

  /** A second writer that was given up abandons the first. */
  lemma RewriteAbandons(s0: Snapshot, s1: Snapshot, s2: Snapshot, s3: Snapshot, t1: Path, t2: Path, mine: nat,
                        ino': nat)
    requires Began(s0, s1, t2, ino') && Abandoned(s1, s2, t2, ino')
    requires s3 == s2.(entries := s2.entries - {t1})
    ensures Abandoned(s0, s3, t1, mine)
  {
  }

  /** The bytes of a temporary file while its content is streamed: nothing, or a hole and the content so far. */
  function Staged(contentStart: nat, content: seq<byte>): seq<byte> {
    if content == [] then [] else Zeros(contentStart) + content
  }

  lemma StagedWrite(contentStart: nat, content: seq<byte>, more: seq<byte>)
    ensures Overwrite(Staged(contentStart, content), contentStart + |content|, more)
            == Staged(contentStart, content + more)
  {
    var b := Staged(contentStart, content);
    if more == [] {
      assert content + more == content;
    } else if content == [] {
      assert content + more == more;
      assert b + Zeros(contentStart) == Zeros(contentStart);
    } else {
      assert b[..|b|] == b;
      assert b + more == Zeros(contentStart) + (content + more);
    }
  }

  lemma StagedSealed(contentStart: nat, content: seq<byte>, prefix: seq<byte>)
    requires |prefix| == contentStart
    ensures Overwrite(Staged(contentStart, content), 0, prefix) == prefix + content
  {
    OverwritePrefix(Staged(contentStart, content), prefix);
  }

  /** The disk after a temporary entry was given up: it is removed, unless there was none or the removal was refused. */
  predicate LetGo(d: Disk, d': Disk, temp: Path) {
    d' == d || (temp in d.dir && d' == d.Unlink(temp))
  }

  lemma LetGoKeepsNames(d: Disk, d': Disk, temp: Path, name: string)
    requires LetGo(d, d', temp) && temp.Temp?
    ensures Object(name) in d'.fallback ==> Object(name) in d.fallback
  {
  }

  /** The disk after a creation that failed: no file, or one that was let go again. */
  ghost predicate NotCreated(d: Disk, d': Disk, name: string) {
    || d' == d
    || exists temp: Path ::
         temp.Temp? && temp.name == name && temp !in d.dir && LetGo(d.CreateNew(temp), d', temp)
  }

  lemma LetGoIsNotCreated(d: Disk, d': Disk, temp: Path, name: string)
    ensures NotCreated(d, d, name)
    ensures temp.Temp? && temp.name == name && temp !in d.dir && LetGo(d.CreateNew(temp), d', temp) ==>
              NotCreated(d, d', name)
  {
    hide LetGo;
  }

  /** The disk after a file's content grew from `c0` to `c1`. */
  ghost predicate Appended(d: Disk, d': Disk, ino: nat, contentStart: nat, c0: seq<byte>, c1: seq<byte>) {
    ino in d.files && c0 <= c1 && d' == d.WriteAt(ino, contentStart + |c0|, c1[|c0|..])
  }

  lemma NothingAppended(d: Disk, ino: nat, contentStart: nat, c: seq<byte>)
    requires ino in d.files
    ensures Appended(d, d, ino, contentStart, c, c)
  {
    assert c[|c|..] == [];
    NothingWritten(d, ino, contentStart + |c|);
  }

  lemma AppendedFurther(d0: Disk, d1: Disk, d2: Disk, ino: nat, contentStart: nat, c0: seq<byte>, c1: seq<byte>,
                        more: seq<byte>)
    requires Appended(d0, d1, ino, contentStart, c0, c1) && ino in d1.files
    requires d2 == d1.WriteAt(ino, contentStart + |c1|, more)
    ensures Appended(d0, d2, ino, contentStart, c0, c1 + more)
  {
    hide Overwrite;
    WriteAtTwice(d0, ino, contentStart + |c0|, c1[|c0|..], more);
    assert (c1 + more)[|c0|..] == c1[|c0|..] + more;
  }

  lemma AppendedTwice(d0: Disk, d1: Disk, d2: Disk, ino: nat, contentStart: nat, c0: seq<byte>, c1: seq<byte>,
                      c2: seq<byte>)
    requires Appended(d0, d1, ino, contentStart, c0, c1) && Appended(d1, d2, ino, contentStart, c1, c2)
    ensures Appended(d0, d2, ino, contentStart, c0, c2)
  {
    AppendedFurther(d0, d1, d2, ino, contentStart, c0, c1, c2[|c1|..]);
    assert c1 + c2[|c1|..] == c2;
  }

  /** The disk after a new file was created and this much content written to it. */
  ghost predicate Filled(d: Disk, d': Disk, temp: Path, name: string, contentStart: nat, c: seq<byte>) {
    temp.Temp? && temp.name == name && temp !in d.dir && Appended(d.CreateNew(temp), d', d.next, contentStart, [], c)
  }

  /** The disk after creating or filling a new file failed: what was written of the content was let go again. */
  ghost predicate NotFilled(d: Disk, d': Disk, name: string, content: seq<byte>) {
    || NotCreated(d, d', name)
    || exists d1: Disk, temp: Path, contentStart: nat, c: seq<byte> ::
         HEADER_SIZE <= contentStart <= U32_MAX && c <= content && Filled(d, d1, temp, name, contentStart, c)
           && LetGo(d1, d', temp)
  }

  /** The disk after a prefix was written in front of a file's content. */
  function WrittenOut(d: Disk, ino: nat, prefix: seq<byte>, sync: bool): Disk
    requires ino in d.files
  {
    if sync then d.WriteAt(ino, 0, prefix).Sync(ino) else d.WriteAt(ino, 0, prefix)
  }

  /** The disk after a rename, and perhaps a flush of the directory. */
  predicate Renamed(d: Disk, d': Disk, temp: Path, name: string, sync: bool) {
    && temp in d.dir
    && (d' == d.Rename(temp, Object(name)) || (sync && d' == d.Rename(temp, Object(name)).SyncDirectory()))
  }

  /** What a successful fast path does to the disk: it writes the prefix of these sections, and renames. */
  predicate WentOut(d: Disk, d': Disk, ino: nat, h: ObjectHeader, mo: seq<Entry>, to: seq<Entry>, temp: Path,
                    name: string, sync: bool)
  {
    && ino in d.files && SectionsFit(h.Layout(), mo, to)
    && Renamed(WrittenOut(d, ino, Prefix(h, mo, to), sync), d', temp, name, sync)
  }

  /** The disk after some part of a prefix was written in front of a file's content. */
  ghost predicate PartOut(d: Disk, d': Disk, ino: nat, prefix: seq<byte>) {
    ino in d.files && exists n: nat :: n <= |prefix| && d' == d.WriteAt(ino, 0, prefix[..n])
  }

  lemma PartOutNow(d: Disk, ino: nat, prefix: seq<byte>, n: nat)
    requires ino in d.files && n <= |prefix|
    ensures PartOut(d, d, ino, prefix) && PartOut(d, d.WriteAt(ino, 0, prefix), ino, prefix)
    ensures PartOut(d, d.WriteAt(ino, 0, prefix[..n]), ino, prefix)
  {
    NothingWritten(d, ino, 0);
    assert prefix[..0] == [] && prefix[..|prefix|] == prefix;
  }

  /** These sections can be encoded in these orders, in the place the header gives them. */
  ghost predicate Encodes(h: ObjectHeader, m: Map, t: Map, mo: seq<Entry>, to: seq<Entry>) {
    LegalMap(m) && LegalMap(t) && Enumerates(mo, m) && Enumerates(to, t) && SectionsFit(h.Layout(), mo, to)
  }

  /** What a fast path that fails does to the disk: some or nothing of the prefix is written and the temporary entry let
      go; or, when it is the rename that fails, all of it is written and the entry stays. */
  ghost predicate WentWrong(d: Disk, d': Disk, ino: nat, h: ObjectHeader, m: Map, t: Map, mo: seq<Entry>,
                            to: seq<Entry>, temp: Path, sync: bool, e: FileError)
  {
    || LetGo(d, d', temp)
    || (Encodes(h, m, t, mo, to) && exists d1 :: PartOut(d, d1, ino, Prefix(h, mo, to)) && LetGo(d1, d', temp))
    || (e == IO(Call.Rename) && ino in d.files && Encodes(h, m, t, mo, to)
        && d' == WrittenOut(d, ino, Prefix(h, mo, to), sync))
  }

  /** The header the fast path builds for a plan. */
  ghost predicate FastHeader(p: Plan, h: ObjectHeader) {
    && PlannedFit(p) == Fits(h.Layout()) && h.version == CURRENT_VERSION && h.bitFlags == 0
    && h.contentLength == |p.content|
  }

  /** What the fast path of `finish` does to the disk. */
  ghost predicate EndedFast(p: Plan, d: Disk, d': Disk, temp: Path, ino: nat, published: bool) {
    || (!published && LetGo(d, d', temp))
    || exists h: ObjectHeader, mo: seq<Entry>, to: seq<Entry>, e: FileError ::
         FastHeader(p, h) && EndedWith(p, d, d', temp, ino, published, h, mo, to, e)
  }

  ghost predicate EndedWith(p: Plan, d: Disk, d': Disk, temp: Path, ino: nat, published: bool, h: ObjectHeader,
                            mo: seq<Entry>, to: seq<Entry>, e: FileError)
  {
    if published then
      Encodes(h, p.metadata, p.tags, mo, to) && WentOut(d, d', ino, h, mo, to, temp, p.name, p.sync)
    else
      WentWrong(d, d', ino, h, p.metadata, p.tags, mo, to, temp, p.sync, e)
  }

  /** What the slow path does to the disk: another file is created and filled with the content, and goes the fast way;
      or it is not; and the first temporary entry is let go. */
  ghost predicate EndedSlow(p: Plan, d: Disk, d': Disk, temp: Path, published: bool) {
    || (!published && exists d1 :: NotFilled(d, d1, p.name, p.content) && LetGo(d1, d', temp))
    || exists d1: Disk, d2: Disk, temp2: Path, contentStart: nat ::
         Refilled(p, d, d1, d2, d', temp, temp2, contentStart, published)
  }

  ghost predicate Refilled(p: Plan, d: Disk, d1: Disk, d2: Disk, d': Disk, temp: Path, temp2: Path, contentStart: nat,
                           published: bool)
  {
    && HEADER_SIZE <= contentStart <= U32_MAX && Filled(d, d1, temp2, p.name, contentStart, p.content)
    && EndedFast(p.(options := RewriteOptions(p.options), contentStart := contentStart), d1, d2, temp2, d.next,
                 published)
    && LetGo(d2, d', temp)
  }

  /** What an atomic update does to the disk: nothing, or a new file is created and filled with the stored content,
      and goes the fast way; or it is given up on the way. */
  ghost predicate Updated(p: Plan, d: Disk, d': Disk, published: bool) {
    || (!published && (d' == d || NotFilled(d, d', p.name, p.content)))
    || exists d1: Disk, temp: Path ::
         && HEADER_SIZE <= p.contentStart <= U32_MAX && Filled(d, d1, temp, p.name, p.contentStart, p.content)
         && EndedFast(p, d1, d', temp, d.next, published)
  }

  // ---- ObjectWriter -----------------------------------------------------------------------------

  class ObjectWriter {
    const fs: FileSystem
    const file: File
    var tempPath: Option<Path>
    const finalName: string
    var layout: SectionLayout
    const layoutOptions: LayoutOptions
    const compression: CompressionType
    var metadata: Map
    var tags: Map
    var contentLength: nat
    const sync: bool
    var allowRawWrites: bool
    /** The bytes accepted so far. */
    ghost var content: seq<byte>

    constructor (file: File, temp: Path, name: string, layout: SectionLayout, options: CreateOptions)
      ensures fs == file.fs && this.file == file && tempPath == Some(temp) && finalName == name
      ensures this.layout == layout && layoutOptions == options.layout && compression == options.compression
      ensures metadata == options.metadata && tags == options.tags && sync == options.sync
      ensures contentLength == 0 && content == [] && allowRawWrites == options.compression.NoCompression?
    {
      fs := file.fs;
      this.file, tempPath, finalName, this.layout := file, Some(temp), name, layout;
      layoutOptions, compression, metadata, tags, sync :=
        options.layout, options.compression, options.metadata, options.tags, options.sync;
      contentLength, content, allowRawWrites := 0, [], options.compression.NoCompression?;
    }

    ghost function Planned(): Plan
      reads this
    {
      Plan(finalName, layout.contentStart, layoutOptions, compression, metadata, tags, content, sync)
    }

    /** The writer owns one temporary entry, the only one for its file, whose bytes are the content so far. */
    ghost predicate Valid()
      reads this, file`pos, fs`disk, fs`stuck
    {
      && file.fs == fs && file.Valid()
      && tempPath.Some? && tempPath.value.Temp? && tempPath.value in fs.Visible()
      && (forall p :: p in fs.disk.dir ==> (fs.disk.dir[p] == file.ino <==> p == tempPath.value))
      && HEADER_SIZE <= layout.contentStart <= U32_MAX && layoutOptions.minContentStart <= U32_MAX
      && contentLength == |content| && file.pos == layout.contentStart + contentLength <= MAX_FILE
      && file.Bytes() == Staged(layout.contentStart, content)
      && WellTypedMap(fs.rules, MetaKey, metadata) && WellTypedMap(fs.rules, TagKey, tags)
      && Supported(fs, compression)
    }

    /** `create`: refused without a trace, or a writer with an empty file under a name nobody else holds. */
    static method Create(fs: FileSystem, name: string, options: CreateOptions)
      returns (r: Result<ObjectWriter, FileError>)
      requires fs.Valid() && WellTypedOptions(fs.rules, options)
      modifies fs`disk, fs`counter, fs`stuck, fs`refusals
      ensures fs.Valid() && fs.refusals >= old(fs.refusals)
      ensures match r
              case Ok(w) =>
                && fresh(w) && fresh(w.file) && w.fs == fs && w.Valid()
                && TookFirst(old(fs.disk), fs.pid, name, old(fs.counter), w.tempPath.value, fs.counter)
                && Began(old(fs.Now()), fs.Now(), w.tempPath.value, w.file.ino)
                && w.tempPath.value !in old(fs.disk.dir) && w.tempPath.value.name == name
                  && w.file.ino == old(fs.disk.next)
                && fs.disk == old(fs.disk).CreateNew(w.tempPath.value)
                && Compute(options.layout, MapSize(options.metadata), MapSize(options.tags)) == Result.Ok(w.layout)
                && w.Planned() == Plan(name, w.layout.contentStart, options.layout, options.compression,
                                       options.metadata, options.tags, [], options.sync)
                && w.allowRawWrites == options.compression.NoCompression?
                && Supported(fs, options.compression)
              case Err(e) =>
                && NoTrace(old(fs.Now()), fs.Now()) && NotCreated(old(fs.disk), fs.disk, name)
                  && e != IO(Call.Duplicate)
                && (!Supported(fs, options.compression) ==> e == UnsupportedCompression)
                && (if BySystem(e) then fs.refusals > old(fs.refusals)
                    else CreationRefused(fs, old(fs.Names(name)), options, e))
      ensures r.Ok? ==> forall e :: !CreationRefused(fs, old(fs.Names(name)), options, e)
    {
      hide WellTypedMap, MapSize, Compute, NotCreated, LetGo, NoTrace, ObjectWriter.Valid, Began, Staged,
        TookFirst;
      NoTraceNow(fs.Now());
      LetGoIsNotCreated(fs.disk, fs.disk, Temp(name, 0, 0), name);
      if !Supported(fs, options.compression) {
        return Err(UnsupportedCompression);
      }
      var metadataSize := Codec.SizeOf(options.metadata);
      var tagsSize := Codec.SizeOf(options.tags);
      var layout := Compute(options.layout, metadataSize, tagsSize);
      ComputeIsSound(options.layout, metadataSize, tagsSize);
      if layout.Err? { return Err(layout.error); }
      var file := CreateTempFile(fs, name);
      if file.Err? { return Err(file.error); }
      ghost var s1 := fs.Now();
      var w := new ObjectWriter(file.value.0, file.value.1, name, layout.value, options);
      var seek := w.file.SeekStart(w.layout.contentStart);
      if seek.Err? {
        w.Drop();
        BeganDropped(old(fs.Now()), s1, fs.Now(), file.value.1, file.value.0.ino);
        LetGoIsNotCreated(old(fs.disk), fs.disk, file.value.1, name);
        return Err(seek.error);
      }
      NewWriterIsValid(w, old(fs.disk), file.value.1);
      return Result.Ok(w);
    }

    /** `write`: takes a prefix of the buffer behind the content so far, unless the raw-write guard is closed. */
    method Write(data: seq<byte>) returns (r: Result<nat, FileError>)
      requires Valid()
      modifies this`contentLength, this`content, file`pos, fs`disk, fs`refusals
      ensures Valid() && OnlyFile(old(fs.Now()), fs.Now(), file.ino)
      ensures fs.refusals
              == old(fs.refusals) + if r == Err(IO(Call.Write)) || (r.Ok? && r.value == 0 && data != []) then 1 else 0
      ensures match r
              case Ok(n) =>
                && allowRawWrites && n <= |data| && content == old(content) + data[..n]
                && fs.disk == old(fs.disk).WriteAt(file.ino, old(file.pos), data[..n])
              case Err(e) =>
                && content == old(content) && fs.disk == old(fs.disk)
                && e == if allowRawWrites then IO(Call.Write) else RawWriteRefused
    {
      hide Staged, Overwrite, WellTypedMap;
      if !allowRawWrites {
        assert fs.Now().files == fs.Now().files[file.ino := fs.Now().files[file.ino]];
        return Err(RawWriteRefused);
      }
      r := file.Write(data);
      if r.Err? {
        assert fs.Now().files == fs.Now().files[file.ino := fs.Now().files[file.ino]];
        return;
      }
      assert file.Bytes()
             == Overwrite(Staged(layout.contentStart, content), layout.contentStart + |content|, data[..r.value]);
      StagedWrite(layout.contentStart, content, data[..r.value]);
      contentLength := contentLength + r.value;
      content := content + data[..r.value];
    }

    /** `write_all`, as `Write` provides it. */
    method WriteAll(data: seq<byte>) returns (r: Result<(), FileError>)
      requires Valid()
      modifies this`contentLength, this`content, file`pos, fs`disk, fs`refusals
      ensures Valid() && fs.Valid() && OnlyFile(old(fs.Now()), fs.Now(), file.ino)
      ensures Appended(old(fs.disk), fs.disk, file.ino, layout.contentStart, old(content), content)
      ensures content <= old(content) + data
      ensures r.Ok? ==> content == old(content) + data && (allowRawWrites || data == [])
      ensures r.Err? ==> r.error in {IO(Call.Write), IO(WriteZero), RawWriteRefused}
      ensures r == Err(RawWriteRefused) <==> !allowRawWrites && data != []
      ensures fs.refusals == old(fs.refusals) + if r.Err? && r.error.IO? then 1 else 0
    {
      hide Staged, Overwrite, WellTypedMap, Appended, Valid;
      WriterHasItsFile(this);
      NothingAppended(fs.disk, file.ino, layout.contentStart, content);
      var done := 0;
      assert content + data[..0] == content;
      assert fs.Now().files == fs.Now().files[file.ino := fs.Now().files[file.ino]];
      while done < |data|
        invariant done <= |data| && Valid() && fs.Valid() && content == old(content) + data[..done]
        invariant OnlyFile(old(fs.Now()), fs.Now(), file.ino)
        invariant Appended(old(fs.disk), fs.disk, file.ino, layout.contentStart, old(content), content)
        invariant (done > 0 ==> allowRawWrites) && fs.refusals == old(fs.refusals)
        decreases |data| - done
      {
        ghost var d, before := fs.disk, content;
        WriterHasItsFile(this);
        var n := Write(data[done..]);
        WriterHasItsFile(this);
        if n.Err? { return Err(n.error); }
        AppendedFurther(old(fs.disk), d, fs.disk, file.ino, layout.contentStart, old(content), before,
                        data[done..][..n.value]);
        assert data[..done] + data[done..][..n.value] == data[..done + n.value];
        done := done + n.value;
        if n.value == 0 {
          return Err(IO(WriteZero));
        }
      }
      assert data[..done] == data;
      return Result.Ok(());
    }

    /** `metadata_mut`, `tags_mut`: any change to what will be published. */
    method SetMetadata(m: Map)
      requires Valid() && WellTypedMap(fs.rules, MetaKey, m)
      modifies this`metadata
      ensures Valid() && Planned() == old(Planned()).(metadata := m)
    {
      metadata := m;
    }

    method SetTags(t: Map)
      requires Valid() && WellTypedMap(fs.rules, TagKey, t)
      modifies this`tags
      ensures Valid() && Planned() == old(Planned()).(tags := t)
    {
      tags := t;
    }

    /** `content_encoder`: opens the guard; what the encoder passes on are the bytes to store. */
    method ContentEncoder() returns (r: Result<(), FileError>)
      requires Valid()
      modifies this`allowRawWrites
      ensures Valid() && allowRawWrites
      ensures r == if (compression.Zstd? ==> fs.zstd) && (compression.Gzip? ==> fs.gzip) then Result.Ok(())
                   else Err(UnsupportedCompression)
    {
      allowRawWrites := true;
      return if Supported(fs, compression) then Result.Ok(()) else Err(UnsupportedCompression);
    }

    /** What happens when the writer goes out of scope: the temporary file, if it still has one, is removed. */
    method Drop()
      requires fs.Valid() && (tempPath.Some? ==> tempPath.value.Temp?)
      modifies this`tempPath, fs`disk, fs`stuck, fs`refusals
      ensures fs.Valid() && tempPath == None && fs.refusals >= old(fs.refusals)
      ensures var gone := if old(tempPath).Some? then {old(tempPath).value} else {};
              fs.Now() == old(fs.Now()).(entries := old(fs.Visible()) - gone)
      ensures old(tempPath).Some? ==> LetGo(old(fs.disk), fs.disk, old(tempPath).value)
      ensures old(tempPath).None? ==> fs.disk == old(fs.disk)
    {
      if tempPath.Some? {
        var temp := tempPath.value;
        tempPath := None;
        var _ := fs.Remove(temp);
      }
    }

    /** `abort`: as dropping, but a refused removal is reported. */
    method Abort() returns (r: Result<(), FileError>)
      requires Valid()
      modifies this`tempPath, fs`disk, fs`stuck, fs`refusals
      ensures fs.Valid() && tempPath == None && fs.refusals == old(fs.refusals) + if r.Err? then 1 else 0
      ensures fs.Now() == old(fs.Now()).(entries := old(fs.Visible()) - {old(tempPath).value})
      ensures match r
              case Ok(_) => old(tempPath).value !in fs.disk.dir && LetGo(old(fs.disk), fs.disk, old(tempPath).value)
              case Err(e) => e == IO(Call.Remove) && old(tempPath).value in fs.stuck && fs.disk == old(fs.disk)
    {
      var temp := tempPath.value;
      tempPath := None;
      var removal := fs.Remove(temp);
      match removal {
        case Removed => return Result.Ok(());
        case Missing => return Result.Ok(());
        case Refused => return Err(IO(Call.Remove));
      }
    }

    /** The prefix goes in front of the content, and everything is flushed to stable storage when asked for. */
    method WriteOut(prefix: seq<byte>) returns (r: Result<(), FileError>)
      requires file.Valid() && file.fs == fs
      modifies file`pos, fs`disk, fs`refusals
      ensures file.Valid() && fs.disk.dir == old(fs.disk.dir) && OnlyFile(old(fs.Now()), fs.Now(), file.ino)
      ensures fs.refusals == old(fs.refusals) + if r.Err? then 1 else 0
      ensures match r
              case Ok(_) => fs.disk == WrittenOut(old(fs.disk), file.ino, prefix, sync)
              case Err(e) =>
                && e.IO? && BySystem(e) && e !in {IO(Call.Duplicate), IO(Call.Rename)}
                && PartOut(old(fs.disk), fs.disk, file.ino, prefix)
    {
      hide Overwrite, PartOut;
      PartOutNow(fs.disk, file.ino, prefix, 0);
      assert fs.Now().files == fs.Now().files[file.ino := fs.Now().files[file.ino]];
      r := file.Flush();
      if r.Err? { return; }
      r := file.SeekStart(0);
      if r.Err? { return; }
      r := file.WriteAll(prefix);
      if r.Err? {
        ghost var n: nat :| n <= |prefix| && fs.disk == old(fs.disk).WriteAt(file.ino, 0, prefix[..n]);
        PartOutNow(old(fs.disk), file.ino, prefix, n);
        return;
      }
      r := file.Flush();
      if r.Err? { return; }
      if sync {
        r := file.SyncAll();
      }
    }

    /** Encodes the prefix and writes it in front of the content. */
    method Seal(header: ObjectHeader) returns (r: Result<(), FileError>, ghost mo: seq<Entry>, ghost to: seq<Entry>)
      requires Valid() && HEADER_SIZE <= layout.tagsStart <= layout.contentStart
      requires header.Layout() == layout && header.contentLength == |content| && header.version == CURRENT_VERSION
      modifies file`pos, fs`disk, fs`refusals
      ensures fs.Valid() && fs.disk.dir == old(fs.disk.dir) && OnlyFile(old(fs.Now()), fs.Now(), file.ino)
      ensures fs.refusals == old(fs.refusals) + if r.Err? && r.error.IO? then 1 else 0
      ensures match r
              case Ok(_) =>
                && IsObject(file.Bytes(), header, metadata, tags, content)
                && (sync ==> fs.disk.files[file.ino].synced)
                && Encodes(header, metadata, tags, mo, to)
                && fs.disk == WrittenOut(old(fs.disk), file.ino, Prefix(header, mo, to), sync)
              case Err(e) =>
                && e !in {IO(Call.Duplicate), IO(Call.Rename)} && (e.IO? ==> BySystem(e))
                && (!e.IO? && Sound(layout, MapSize(metadata), MapSize(tags)) ==> Unencodable(metadata, tags, e))
                && (fs.disk == old(fs.disk)
                    || (Encodes(header, metadata, tags, mo, to)
                        && PartOut(old(fs.disk), fs.disk, file.ino, Prefix(header, mo, to))))
    {
      hide WellTypedMap, MapSize, LegalMap, Overwrite, Staged, Prefix, Enumerates, PartOut;
      assert fs.Now().files == fs.Now().files[file.ino := fs.Now().files[file.ino]];
      var prefix;
      prefix, mo, to := EncodePrefix(header, metadata, tags, layout);
      if prefix.Err? { return Err(prefix.error), mo, to; }
      r := WriteOut(prefix.value);
      if r.Err? { return; }
      StagedSealed(layout.contentStart, content, prefix.value);
      assert IsImage(file.Bytes(), header, metadata, tags, content, mo, to);
    }

    /** Renames the temporary file over the destination. The entry is given up before the rename, so a failed rename
        leaves the file behind. */
    method Publish() returns (r: Result<(), FileError>)
      requires file.Valid() && file.fs == fs && tempPath.Some? && tempPath.value.Temp?
      requires tempPath.value in fs.Visible() && fs.disk.dir[tempPath.value] == file.ino
      modifies this`tempPath, fs`disk, fs`stuck, fs`published, fs`refusals
      ensures fs.Valid() && tempPath == None && fs.disk.files == old(fs.disk.files) && fs.refusals >= old(fs.refusals)
      ensures r.Ok? && sync && fs.refusals == old(fs.refusals) ==> Object(finalName) !in fs.disk.fallback
      ensures r.Err? ==> fs.refusals == old(fs.refusals) + 1
      ensures match r
              case Ok(_) =>
                && fs.Visible() == (old(fs.Visible()) - {old(tempPath).value})[Object(finalName) := file.ino]
                && fs.published == old(fs.published) + [Publication(Object(finalName), fs.disk.files[file.ino])]
                && Renamed(old(fs.disk), fs.disk, old(tempPath).value, finalName, sync)
              case Err(e) =>
                && e == IO(Call.Rename) && fs.Visible() == old(fs.Visible()) - {old(tempPath).value}
                && fs.published == old(fs.published) && fs.disk == old(fs.disk)
    {
      var temp := tempPath.value;
      tempPath := None;
      r := fs.Rename(temp, finalName);
      if r.Err? { return; }
      if sync {
        fs.SyncDirectory();
      }
    }

    /** `finish`: publishes the object and hands back a handle on it, or gives the write up. A failure to duplicate the
        handle comes after the rename: it alone reports an error although the object was published. */
    method Finish() returns (r: Result<TuxObject, FileError>, ghost h: ObjectHeader, ghost ino: nat)
      requires Valid()
      modifies this, file`pos, fs`disk, fs`counter, fs`stuck, fs`published, fs`refusals
      ensures fs.Valid()
      ensures r.Ok? || r.error == IO(Call.Duplicate) ==>
                Published(old(Planned()), h, ino, old(fs.Now()), fs.Now(), old(tempPath).value, file.ino)
      ensures r.Err? && r.error != IO(Call.Duplicate) ==>
                Abandoned(old(fs.Now()), fs.Now(), old(tempPath).value, file.ino)
      ensures r.Ok? ==> fresh(r.value) && fresh(r.value.file) && r.value.Is(fs, finalName, ino, h, old(metadata))
      ensures tempPath == None
      ensures var published := r.Ok? || r.error == IO(Call.Duplicate);
              if old(NeedsRewrite(Planned())) then
                EndedSlow(old(Planned()), old(fs.disk), fs.disk, old(tempPath).value, published)
              else
                EndedFast(old(Planned()), old(fs.disk), fs.disk, old(tempPath).value, file.ino, published)
      ensures fs.refusals >= old(fs.refusals)
      ensures Answered(old(Planned()), old(fs.Names(finalName)), ErrorOf(r), old(fs.refusals), fs.refusals)
      ensures r.Ok? && sync && fs.refusals == old(fs.refusals) ==> Object(finalName) !in fs.disk.fallback
      decreases NeedsRewrite(Planned()), 1
    {
      hide WellTypedMap, LegalMap, MapSize, Repartition, Compute, Staged, IsObject, OpenBytes, TagBytes, StoredContent,
        WentOut, WentWrong, LetGo, Encodes, EndedSlow, Unencodable, Answered;
      h, ino := ObjectHeader(CURRENT_VERSION, compression, 0, 0, 0, 0), 0;
      ghost var p := Planned();
      var metadataSize := Codec.SizeOf(metadata);
      var tagsSize := Codec.SizeOf(tags);
      var fit := Repartition(layout.contentStart, metadataSize, tagsSize, layoutOptions.alignment);
      match fit {
        case NoFit =>
          assert fs.Names(finalName) == old(fs.Names(finalName));
          r, h, ino := FinishByRewriting();
        case Overflows =>
          Drop();
          r := Err(Overflow);
          OverflowAnswered(p, old(fs.Names(finalName)), old(fs.refusals), fs.refusals);
        case Fits(l) =>
          RepartitionIsSound(layout.contentStart, metadataSize, tagsSize, layoutOptions.alignment);
          layout := l;
          var header := ObjectHeader(CURRENT_VERSION, compression, l.tagsStart, l.contentStart, contentLength, 0);
          h := header;
          ino := file.ino;
          ghost var mo, to;
          r, mo, to := SealAndPublish(header);
          FastAnswered(p, old(fs.Names(finalName)), header, mo, to, ErrorOf(r), old(fs.refusals), fs.refusals);
          FastPathEnds(p, old(fs.disk), fs.disk, old(tempPath).value, ino, r.Ok? || r.error == IO(Call.Duplicate),
                       header, mo, to, if r.Err? then r.error else Overflow);
      }
    }

    /** The fast path once the layout is settled: the prefix, then the rename. */
    method SealThenPublish(header: ObjectHeader)
      returns (r: Result<(), FileError>, ghost mo: seq<Entry>, ghost to: seq<Entry>)
      requires Valid() && HEADER_SIZE <= layout.tagsStart <= layout.contentStart
      requires header.Layout() == layout && header.contentLength == |content| && header.version == CURRENT_VERSION
      modifies this`tempPath, file`pos, fs`disk, fs`stuck, fs`published, fs`refusals
      ensures fs.Valid() && tempPath == None && file.ino in fs.disk.files && fs.refusals >= old(fs.refusals)
      ensures r.Ok? && sync && fs.refusals == old(fs.refusals) ==> Object(finalName) !in fs.disk.fallback
      ensures r.Err? && r.error.IO? ==> BySystem(r.error) && fs.refusals > old(fs.refusals)
      ensures match r
              case Ok(_) =>
                && Replaced(old(fs.Now()), fs.Now(), finalName, file.ino, old(tempPath).value, file.ino)
                && IsObject(fs.disk.files[file.ino].bytes, header, metadata, tags, content)
                && (sync ==> fs.disk.files[file.ino].synced)
                && Encodes(header, metadata, tags, mo, to)
                && WentOut(old(fs.disk), fs.disk, file.ino, header, mo, to, old(tempPath).value, finalName, sync)
              case Err(e) =>
                && e != IO(Call.Duplicate) && Abandoned(old(fs.Now()), fs.Now(), old(tempPath).value, file.ino)
                && (!e.IO? && Sound(layout, MapSize(metadata), MapSize(tags)) ==> Unencodable(metadata, tags, e))
                && WentWrong(old(fs.disk), fs.disk, file.ino, header, metadata, tags, mo, to, old(tempPath).value,
                             sync, e)
    {
      hide WellTypedMap, LegalMap, Staged, IsObject, Prefix, Enumerates, WrittenOut, Replaced, Abandoned, Renamed,
        PartOut, LetGo, Unencodable, MapSize;
      ghost var s0, temp := fs.Now(), tempPath.value;
      r, mo, to := Seal(header);
      ghost var s1 := fs.Now();
      if r.Err? {
        Drop();
        WorkAbandoned(s0, s1, fs.Now(), temp, file.ino);
        return;
      }
      r := Publish();
      if r.Ok? {
        WorkPublished(s0, s1, fs.Now(), finalName, temp, file.ino);
      } else {
        WorkAbandoned(s0, s1, fs.Now(), temp, file.ino);
      }
    }

    /** The fast path, and a second handle on the published file. */
    method SealAndPublish(header: ObjectHeader)
      returns (r: Result<TuxObject, FileError>, ghost mo: seq<Entry>, ghost to: seq<Entry>)
      requires Valid() && HEADER_SIZE <= layout.tagsStart <= layout.contentStart
      requires header.Layout() == layout && header.contentLength == |content| && header.version == CURRENT_VERSION
      modifies this`tempPath, file`pos, fs`disk, fs`stuck, fs`published, fs`refusals
      ensures fs.Valid() && tempPath == None && file.ino in fs.disk.files && fs.refusals >= old(fs.refusals)
      ensures r.Ok? && sync && fs.refusals == old(fs.refusals) ==> Object(finalName) !in fs.disk.fallback
      ensures r.Err? && r.error.IO? ==> BySystem(r.error) && fs.refusals > old(fs.refusals)
      ensures r.Ok? || r.error == IO(Call.Duplicate) ==>
                && Replaced(old(fs.Now()), fs.Now(), finalName, file.ino, old(tempPath).value, file.ino)
                && IsObject(fs.disk.files[file.ino].bytes, header, metadata, tags, content)
                && (sync ==> fs.disk.files[file.ino].synced)
                && Encodes(header, metadata, tags, mo, to)
                && WentOut(old(fs.disk), fs.disk, file.ino, header, mo, to, old(tempPath).value, finalName, sync)
      ensures r.Err? && r.error != IO(Call.Duplicate) ==>
                && Abandoned(old(fs.Now()), fs.Now(), old(tempPath).value, file.ino)
                && WentWrong(old(fs.disk), fs.disk, file.ino, header, metadata, tags, mo, to, old(tempPath).value, sync,
                             r.error)
      ensures r.Err? && !r.error.IO? && Sound(layout, MapSize(metadata), MapSize(tags)) ==>
                Unencodable(metadata, tags, r.error)
      ensures r.Ok? ==> fresh(r.value) && fresh(r.value.file) && r.value.Is(fs, finalName, file.ino, header, metadata)
    {
      hide WellTypedMap, Staged, IsObject, OpenBytes, TagBytes, StoredContent, Enumerates, Replaced, Abandoned, WentOut,
        WentWrong, Encodes;
      var published;
      published, mo, to := SealThenPublish(header);
      if published.Err? { return Err(published.error), mo, to; }
      ObjectDecodes(fs.rules, fs.disk.files[file.ino].bytes, header, metadata, tags, content);
      var handle := file.Duplicate();
      if handle.Err? { return Err(handle.error), mo, to; }
      var reopened := new TuxObject(handle.value, finalName, header, metadata, true);
      return Result.Ok(reopened), mo, to;
    }

    /** The slow path: lay the object out again with larger sections and copy the content across. It runs at most once,
        because the new layout has room for the sections it was computed for. */
    method FinishByRewriting() returns (r: Result<TuxObject, FileError>, ghost h: ObjectHeader, ghost ino: nat)
      requires Valid() && NeedsRewrite(Planned())
      modifies this, file`pos, fs`disk, fs`counter, fs`stuck, fs`published, fs`refusals
      ensures fs.Valid()
      ensures r.Ok? || r.error == IO(Call.Duplicate) ==>
                Published(old(Planned()), h, ino, old(fs.Now()), fs.Now(), old(tempPath).value, file.ino)
      ensures r.Err? && r.error != IO(Call.Duplicate) ==>
                Abandoned(old(fs.Now()), fs.Now(), old(tempPath).value, file.ino)
      ensures r.Ok? ==> fresh(r.value) && fresh(r.value.file) && r.value.Is(fs, finalName, ino, h, old(metadata))
      ensures tempPath == None
      ensures EndedSlow(old(Planned()), old(fs.disk), fs.disk, old(tempPath).value,
                        r.Ok? || r.error == IO(Call.Duplicate))
      ensures fs.refusals >= old(fs.refusals)
      ensures Answered(old(Planned()), old(fs.Names(finalName)), ErrorOf(r), old(fs.refusals), fs.refusals)
      ensures r.Ok? && sync && fs.refusals == old(fs.refusals) ==> Object(finalName) !in fs.disk.fallback
      decreases true, 0
    {
      hide WellTypedMap, LegalMap, MapSize, Repartition, Compute, Staged, IsObject, OpenBytes, Published, Abandoned,
        Kept, Began, NoTrace, Window, Filled, NotFilled, LetGo, EndedFast, EndedSlow, Answered, FillRefused,
        Unencodable, Copyable, Valid;
      WriterParts(this);
      h, ino := ObjectHeader(CURRENT_VERSION, compression, 0, 0, 0, 0), 0;
      ghost var p, s0, names := Planned(), fs.Now(), fs.Names(finalName);
      var options := CreateOptions(metadata, tags, RewriteOptions(layoutOptions), compression, sync);
      NoneWellTyped(fs.rules, MetaKey);
      NoneWellTyped(fs.rules, TagKey);
      metadata, tags := map[], map[];
      assert Window(file.Bytes(), layout.contentStart, contentLength) == content by {
        StagedContent(layout.contentStart, content);
      }
      assert fs.Names(finalName) == names;
      var created := CreateFilled(finalName, options, file, layout.contentStart, contentLength, true);
      if created.Err? {
        ghost var s1, d1 := fs.Now(), fs.disk;
        Drop();
        NothingRefilled(p, old(fs.disk), d1, fs.disk, old(tempPath).value);
        NothingRewritten(s0, s1, fs.Now(), old(tempPath).value, file.ino);
        RewriteNotFilled(fs, names, p, options, created.error, old(fs.refusals), fs.refusals);
        return Err(created.error), h, ino;
      }
      var replacement := created.value;
      WriterParts(replacement);
      ghost var p', s1, t2, d1 := replacement.Planned(), fs.Now(), replacement.tempPath.value, fs.disk;
      ComputeThenRepartition(options.layout, MapSize(options.metadata), MapSize(options.tags));
      ghost var again, count := fs.Names(finalName), fs.refusals;
      r, h, ino := replacement.Finish();
      ghost var s2, d2, later := fs.Now(), fs.disk, fs.refusals;
      Drop();
      RewriteAnswered(fs, p, p', names, again, options, ErrorOf(r), old(fs.refusals), count, later, fs.refusals);
      LetGoKeepsNames(d2, fs.disk, old(tempPath).value, finalName);
      RefilledEnds(p, old(fs.disk), d1, d2, fs.disk, old(tempPath).value, t2, p'.contentStart,
                   r.Ok? || r.error == IO(Call.Duplicate));
      if r.Ok? || r.error == IO(Call.Duplicate) {
        RewritePublishes(p, p', h, ino, s0, s1, s2, fs.Now(), old(tempPath).value, t2, file.ino, replacement.file.ino);
      } else {
        RewriteAbandons(s0, s1, s2, fs.Now(), old(tempPath).value, t2, file.ino, replacement.file.ino);
      }
    }
  }

  lemma RewriteNotFilled(fs: FileSystem, names: Names, p: Plan, o: CreateOptions, e: FileError, before: nat, now: nat)
    requires NeedsRewrite(p) && Supported(fs, p.compression) && before <= now && e != IO(Call.Duplicate)
    requires if BySystem(e) then before < now else FillRefused(fs, names, o, p.content, e)
    requires o.layout == RewriteOptions(p.options) && o.compression == p.compression
    requires o.metadata == p.metadata && o.tags == p.tags
    ensures Answered(p, names, Some(e), before, now)
  {
    hide MapSize, Compute, Repartition, LegalMap;
  }

  /** A second writer is refused only for sections that cannot be encoded, and so is the first. */
  lemma RewriteAnswered(fs: FileSystem, p: Plan, p': Plan, names: Names, again: Names, o: CreateOptions,
                        answer: Option<FileError>, before: nat, count: nat, later: nat, now: nat)
    requires NeedsRewrite(p) && PlannedFit(p').Fits? && Supported(fs, p.compression)
    requires o.layout == RewriteOptions(p.options) && o.compression == p.compression
    requires o.metadata == p.metadata && o.tags == p.tags && p'.metadata == p.metadata && p'.tags == p.tags
    requires forall e :: !FillRefused(fs, names, o, p.content, e)
    requires Answered(p', again, answer, count, later) && before <= count && later <= now
    ensures Answered(p, names, answer, before, now)
  {
    RewriteRefused(fs, p, p', names, again, o);
    hide PlanRefused;
  }

  lemma RewriteRefused(fs: FileSystem, p: Plan, p': Plan, names: Names, again: Names, o: CreateOptions)
    requires NeedsRewrite(p) && PlannedFit(p').Fits? && Supported(fs, p.compression)
    requires o.layout == RewriteOptions(p.options) && o.compression == p.compression
    requires o.metadata == p.metadata && o.tags == p.tags && p'.metadata == p.metadata && p'.tags == p.tags
    requires forall e :: !FillRefused(fs, names, o, p.content, e)
    ensures forall e :: PlanRefused(p', again, e) <==> PlanRefused(p, names, e)
  {
    hide MapSize, Compute, Repartition, LegalMap, Unencodable;
    var layout := Compute(o.layout, MapSize(o.metadata), MapSize(o.tags));
    if layout.Err? { assert !FillRefused(fs, names, o, p.content, layout.error); }
    assert !FillRefused(fs, names, o, p.content, IO(NamesExhausted));
    assert !FillRefused(fs, names, o, p.content, RawWriteRefused);
  }

  lemma FastAnswered(p: Plan, names: Names, h: ObjectHeader, mo: seq<Entry>, to: seq<Entry>, answer: Option<FileError>,
                     before: nat, now: nat)
    requires before <= now && FastHeader(p, h)
    requires answer in {None, Some(IO(Call.Duplicate))} ==> Encodes(h, p.metadata, p.tags, mo, to)
    requires answer.Some? ==>
               if answer.value.IO? then BySystem(answer.value) && before < now
               else Unencodable(p.metadata, p.tags, answer.value)
    ensures Answered(p, names, answer, before, now)
  {
    hide LegalMap, MapSize, Repartition, Enumerates;
  }

  lemma OverflowAnswered(p: Plan, names: Names, before: nat, now: nat)
    requires PlannedFit(p).Overflows? && before <= now
    ensures Answered(p, names, Some(Overflow), before, now)
  {
    hide MapSize, Repartition;
  }

  lemma FastPathEnds(p: Plan, d: Disk, d': Disk, temp: Path, ino: nat, published: bool, h: ObjectHeader,
                     mo: seq<Entry>, to: seq<Entry>, e: FileError)
    requires FastHeader(p, h) && EndedWith(p, d, d', temp, ino, published, h, mo, to, e)
    ensures EndedFast(p, d, d', temp, ino, published)
  {
    hide EndedWith, FastHeader;
  }

  lemma NotUpdated(p: Plan, d: Disk)
    ensures Updated(p, d, d, false)
  {
  }

  lemma UpdateGivenUp(p: Plan, d: Disk, d': Disk)
    requires NotFilled(d, d', p.name, p.content)
    ensures Updated(p, d, d', false)
  {
    hide NotFilled;
  }

  lemma UpdateEnds(p: Plan, d: Disk, d1: Disk, d': Disk, temp: Path, published: bool)
    requires HEADER_SIZE <= p.contentStart <= U32_MAX && Filled(d, d1, temp, p.name, p.contentStart, p.content)
    requires EndedFast(p, d1, d', temp, d.next, published)
    ensures Updated(p, d, d', published)
  {
    hide Filled, EndedFast, NotFilled;
  }

  lemma NothingRefilled(p: Plan, d: Disk, d1: Disk, d': Disk, temp: Path)
    requires NotFilled(d, d1, p.name, p.content) && LetGo(d1, d', temp)
    ensures EndedSlow(p, d, d', temp, false)
  {
  }

  lemma RefilledEnds(p: Plan, d: Disk, d1: Disk, d2: Disk, d': Disk, temp: Path, temp2: Path, contentStart: nat,
                     published: bool)
    requires Refilled(p, d, d1, d2, d', temp, temp2, contentStart, published)
    ensures EndedSlow(p, d, d', temp, published)
  {
    hide Refilled, NotFilled, LetGo;
  }

  lemma StagedContent(contentStart: nat, content: seq<byte>)
    ensures Window(Staged(contentStart, content), contentStart, |content|) == content
  {
  }

  lemma RepartitionIsSound(contentStart: nat, metadataSize: nat, tagsSize: nat, alignment: nat)
    ensures match Repartition(contentStart, metadataSize, tagsSize, alignment)
            case Fits(l) => l.contentStart == contentStart && Sound(l, metadataSize, tagsSize)
            case _ => true
  {
    AlignUpBounds(HEADER_SIZE + metadataSize, alignment);
  }

  lemma NothingPlus(s: seq<byte>)
    ensures [] + s == s
  {
  }

  lemma NewWriterIsValid(w: ObjectWriter, d: Disk, temp: Path)
    requires d.Ok() && temp.Temp? && temp !in d.dir && w.fs.disk == d.CreateNew(temp)
    requires w.fs.Valid() && temp !in w.fs.stuck && w.tempPath == Some(temp)
    requires w.file.fs == w.fs && w.file.ino == d.next && w.file.pos == w.layout.contentStart
    requires HEADER_SIZE <= w.layout.contentStart <= U32_MAX && w.layoutOptions.minContentStart <= U32_MAX
    requires w.contentLength == 0 && w.content == []
    requires WellTypedMap(w.fs.rules, MetaKey, w.metadata) && WellTypedMap(w.fs.rules, TagKey, w.tags)
    requires Supported(w.fs, w.compression)
    ensures w.Valid()
  {
    hide WellTypedMap;
  }

  lemma WriterParts(w: ObjectWriter)
    requires w.Valid()
    ensures w.file.fs == w.fs && w.file.Valid() && w.contentLength == |w.content|
    ensures w.tempPath.Some? && w.tempPath.value.Temp? && w.tempPath.value in w.fs.Visible()
    ensures w.file.Bytes() == Staged(w.layout.contentStart, w.content) && w.layoutOptions.minContentStart <= U32_MAX
    ensures WellTypedMap(w.fs.rules, MetaKey, w.metadata) && WellTypedMap(w.fs.rules, TagKey, w.tags)
    ensures Supported(w.fs, w.compression) && HEADER_SIZE <= w.layout.contentStart <= U32_MAX
  {
  }

  lemma WriterHasItsFile(w: ObjectWriter)
    requires w.Valid()
    ensures w.file.fs == w.fs && w.fs.Valid() && w.file.ino in w.fs.disk.files
    ensures w.file.pos == w.layout.contentStart + |w.content|
  {
  }

  /** `std::io::copy` from a bounded reader into a writer of another file. */
  method Copy(reader: ContentReader, writer: ObjectWriter) returns (r: Result<(), FileError>)
    requires writer.Valid() && reader.file.Valid() && reader.file.fs == writer.fs
    requires reader.file != writer.file && reader.file.ino != writer.file.ino
    modifies reader`remaining, reader.file`pos, writer`contentLength, writer`content, writer.file`pos, writer.fs`disk,
      writer.fs`refusals
    ensures writer.Valid() && reader.file.Valid() && OnlyFile(old(writer.fs.Now()), writer.fs.Now(), writer.file.ino)
    ensures Appended(old(writer.fs.disk), writer.fs.disk, writer.file.ino, writer.layout.contentStart,
                     old(writer.content), writer.content)
    ensures writer.content <= old(writer.content) + old(reader.ToCome())
    ensures r.Ok? ==> writer.content == old(writer.content) + old(reader.ToCome())
    ensures r.Ok? && !writer.allowRawWrites ==> old(reader.ToCome()) == []
    ensures r.Err? ==> r.error in {IO(Call.Read), IO(Call.Write), IO(WriteZero), RawWriteRefused}
    ensures r == Err(RawWriteRefused) ==> !writer.allowRawWrites && old(reader.ToCome()) != []
    ensures writer.fs.refusals == old(writer.fs.refusals) + if r.Err? && r.error.IO? then 1 else 0
  {
    hide Staged, Overwrite, Window, Drop, WellTypedMap, ObjectWriter.Valid, Appended;
    WriterHasItsFile(writer);
    NothingAppended(writer.fs.disk, writer.file.ino, writer.layout.contentStart, writer.content);
    ghost var all, before := reader.ToCome(), writer.content;
    ghost var done: seq<byte> := [];
    assert before + done == before && done + all == all;
    assert writer.fs.Now().files == writer.fs.Now().files[writer.file.ino := writer.fs.Now().files[writer.file.ino]];
    while true
      invariant writer.Valid() && reader.file.Valid()
      invariant writer.content == before + done && done + reader.ToCome() == all
      invariant (!writer.allowRawWrites ==> done == []) && writer.fs.refusals == old(writer.fs.refusals)
      invariant OnlyFile(old(writer.fs.Now()), writer.fs.Now(), writer.file.ino)
      invariant Appended(old(writer.fs.disk), writer.fs.disk, writer.file.ino, writer.layout.contentStart,
                         old(writer.content), writer.content)
      decreases reader.remaining
    {
      var limit: nat :| limit > 0;
      ghost var toCome := reader.ToCome();
      var chunk := reader.Read(limit);
      if chunk.Err? { return Err(chunk.error); }
      if chunk.value == [] {
        assert done == all;
        return Result.Ok(());
      }
      ghost var left := reader.ToCome();
      assert toCome == chunk.value + left;
      Associate(done, chunk.value, left);
      Associate(before, done, chunk.value);
      Associate(before, done, chunk.value + left);
      ghost var d, content := writer.fs.disk, writer.content;
      r := writer.WriteAll(chunk.value);
      AppendedTwice(old(writer.fs.disk), d, writer.fs.disk, writer.file.ino, writer.layout.contentStart, before,
                    content, writer.content);
      if r.Err? {
        PrefixOfMore(writer.content, before + done, chunk.value, left);
        return;
      }
      assert reader.ToCome() == left;
      done := done + chunk.value;
    }
  }

  lemma PrefixOfMore(c: seq<byte>, a: seq<byte>, x: seq<byte>, y: seq<byte>)
    requires c <= a + x
    ensures c <= a + (x + y)
  {
    assert a + (x + y) == (a + x) + y;
  }

  /** Fills an empty writer with a window of another file. */
  method Fill(w: ObjectWriter, source: File, at: nat, length: nat, flush: bool) returns (r: Result<(), FileError>)
    requires source.Valid() && source.fs == w.fs && source != w.file && source.ino != w.file.ino
    requires w.Valid() && w.content == []
    modifies source`pos, w`contentLength, w`content, w.file`pos, w.fs`disk, w.fs`refusals
    ensures w.Valid() && source.Valid() && OnlyFile(old(w.fs.Now()), w.fs.Now(), w.file.ino)
    ensures Appended(old(w.fs.disk), w.fs.disk, w.file.ino, w.layout.contentStart, [], w.content)
    ensures w.content <= old(Window(source.Bytes(), at, length))
    ensures w.fs.refusals == old(w.fs.refusals) + if r.Err? && r.error.IO? then 1 else 0
    ensures match r
            case Ok(_) =>
              && w.content == old(Window(source.Bytes(), at, length))
              && (!w.allowRawWrites ==> old(Window(source.Bytes(), at, length)) == [])
            case Err(e) =>
              && e != IO(Call.Duplicate)
              && (BySystem(e)
                  || (e == RawWriteRefused && !w.allowRawWrites && old(Window(source.Bytes(), at, length)) != []))
  {
    hide WellTypedMap, Staged, Window, Appended;
    NothingAppended(w.fs.disk, w.file.ino, w.layout.contentStart, []);
    assert w.fs.Now().files == w.fs.Now().files[w.file.ino := w.fs.Now().files[w.file.ino]];
    if flush {
      r := source.Flush();
      if r.Err? { return; }
    }
    r := source.SeekStart(at);
    if r.Err? { return; }
    var reader := new ContentReader(source, length);
    NothingPlus(reader.ToCome());
    r := Copy(reader, w);
  }

  /** The first half of every rewrite: a new writer, with a window of another file copied into it, or no trace of one.
      */
  method CreateFilled(name: string, options: CreateOptions, source: File, at: nat, length: nat, flush: bool)
    returns (r: Result<ObjectWriter, FileError>)
    requires source.Valid() && WellTypedOptions(source.fs.rules, options)
    modifies source`pos, source.fs`disk, source.fs`counter, source.fs`stuck, source.fs`refusals
    ensures source.Valid() && source.Bytes() == old(source.Bytes()) && source.fs.refusals >= old(source.fs.refusals)
    ensures r.Ok? ==> forall e :: !FillRefused(source.fs, old(source.fs.Names(name)), options,
                                               Window(source.Bytes(), at, length), e)
    ensures match r
            case Ok(w) =>
              && fresh(w) && fresh(w.file) && w.fs == source.fs && w.Valid()
              && Began(old(source.fs.Now()), source.fs.Now(), w.tempPath.value, w.file.ino)
              && Compute(options.layout, MapSize(options.metadata), MapSize(options.tags)) == Result.Ok(w.layout)
              && w.Planned() == Plan(name, w.layout.contentStart, options.layout, options.compression, options.metadata,
                                     options.tags, Window(source.Bytes(), at, length), options.sync)
              && Copyable(options.compression, Window(source.Bytes(), at, length))
              && w.file.ino == old(source.fs.disk.next)
              && Filled(old(source.fs.disk), source.fs.disk, w.tempPath.value, name, w.layout.contentStart, w.content)
            case Err(e) =>
              && NoTrace(old(source.fs.Now()), source.fs.Now()) && e != IO(Call.Duplicate)
              && NotFilled(old(source.fs.disk), source.fs.disk, name, Window(source.Bytes(), at, length))
              && (if BySystem(e) then source.fs.refusals > old(source.fs.refusals)
                  else FillRefused(source.fs, old(source.fs.Names(name)), options,
                                   Window(source.Bytes(), at, length), e))
  {
    hide WellTypedMap, MapSize, Compute, Staged, Window, Began, NoTrace, Kept, OnlyFile, Appended, LetGo, NotCreated;
    var fs := source.fs;
    ghost var s0 := fs.Now();
    var created := ObjectWriter.Create(fs, name, options);
    if created.Err? {
      NoTraceKeeps(s0, fs.Now(), source.ino);
      return Err(created.error);
    }
    var w := created.value;
    ghost var s1, temp, d1 := fs.Now(), w.tempPath.value, fs.disk;
    BeganKeeps(s0, s1, temp, w.file.ino, source.ino);
    var filled := Fill(w, source, at, length, flush);
    ghost var s2 := fs.Now();
    BeganWrites(s0, s1, s2, temp, w.file.ino);
    BeganKeeps(s0, s2, temp, w.file.ino, source.ino);
    assert Filled(old(fs.disk), fs.disk, temp, name, w.layout.contentStart, w.content);
    if filled.Err? {
      ghost var d2 := fs.disk;
      w.Drop();
      assert LetGo(d2, fs.disk, temp);
      BeganDropped(s0, s2, fs.Now(), temp, w.file.ino);
      return Err(filled.error);
    }
    return Result.Ok(w);
  }

  /** A new file took the first free name from `first` on, and the counter stands behind it. */
  ghost predicate TookFirst(d: Disk, pid: nat, name: string, first: nat, p: Path, next: nat) {
    p.Temp? && p == Temp(name, pid, p.counter) && FirstFree(d, pid, name, first, p.counter) && next == p.counter + 1
  }

  /** The first free temporary name in 32 tries: taken names are skipped, and creation is exclusive. */
  method CreateTempFile(fs: FileSystem, name: string) returns (r: Result<(File, Path), FileError>)
    requires fs.Valid()
    modifies fs`disk, fs`counter, fs`refusals
    ensures fs.Valid() && fs.refusals == old(fs.refusals) + if r == Err(IO(Call.CreateNew)) then 1 else 0
    ensures match r
            case Ok((f, p)) =>
              && TookFirst(old(fs.disk), fs.pid, name, old(fs.counter), p, fs.counter)
              && fs.disk == old(fs.disk).CreateNew(p) && Began(old(fs.Now()), fs.Now(), p, f.ino)
              && fresh(f) && f.fs == fs && f.ino == old(fs.disk.next) && f.pos == 0
            case Err(e) => fs.disk == old(fs.disk) && e in {IO(Call.CreateNew), IO(NamesExhausted)}
    ensures r == Err(IO(NamesExhausted)) <==> old(fs.Names(name)).AllTaken?
  {
    for tries := 0 to 32
      invariant fs.Valid() && fs.disk == old(fs.disk) && fs.counter == old(fs.counter) + tries
      invariant fs.refusals == old(fs.refusals)
      invariant forall c: nat :: old(fs.counter) <= c < fs.counter ==> Temp(name, fs.pid, c) in fs.disk.dir
    {
      var counter := fs.counter;
      fs.counter := fs.counter + 1;
      var candidate := Temp(name, fs.pid, counter);
      var created := fs.CreateNew(candidate);
      match created {
        case Created(f) => return Result.Ok((f, candidate));
        case AlreadyExists =>
        case CreationFailed => return Err(IO(Call.CreateNew));
      }
    }
    return Err(IO(NamesExhausted));
  }

  // ---- TuxObject --------------------------------------------------------------------------------

  class TuxObject {
    const fs: FileSystem
    var file: File
    const name: string
    var header: ObjectHeader
    var metadata: Map
    const writable: bool

    constructor (file: File, name: string, header: ObjectHeader, metadata: Map, writable: bool)
      ensures fs == file.fs && this.file == file && this.name == name
      ensures this.header == header && this.metadata == metadata && this.writable == writable
    {
      fs := file.fs;
      this.file, this.name, this.header, this.metadata, this.writable := file, name, header, metadata, writable;
    }

    /** The handle is usable. The cached values are of their types: the header was decoded or built, and the metadata's
        keys are header names. Nothing is said of the file. */
    ghost predicate Valid()
      reads this, fs`disk, fs`stuck
    {
      && file.fs == fs && file.Valid()
      && header.version == CURRENT_VERSION && WellTypedMap(fs.rules, MetaKey, metadata)
    }

    /** Cache agreement: the cached header and metadata are what opening the handle's file would yield. */
    ghost predicate Coherent()
      requires Valid()
      reads this, fs`disk, fs`stuck
    {
      OpenBytes(fs.rules, file.Bytes()) == Result.Ok((header, metadata))
    }

    /** A coherent, writable handle on this file with this header and metadata. */
    ghost predicate Is(fs': FileSystem, name': string, ino: nat, h: ObjectHeader, m: Map)
      reads this, fs`disk, fs`stuck
    {
      && fs == fs' && Valid() && Coherent() && writable && name == name'
      && file.ino == ino && header == h && metadata == m
    }

    ghost function Replacement(m: Map, t: Map): Plan
      requires Valid()
      reads this, fs`disk, fs`stuck
    {
      AtomicPlan(name, file.Bytes(), header, m, t)
    }

    /** The tags as the handle's file has them. */
    ghost function StoredTags(): Result<Map, FileError>
      requires Valid()
      reads this, fs`disk, fs`stuck
    {
      TagBytes(fs.rules, file.Bytes(), header)
    }

    /** Opens an object: fails on a missing name, an I/O failure, or bytes that do not decode. */
    static method Open(fs: FileSystem, name: string, writable: bool) returns (r: Result<TuxObject, FileError>)
      requires fs.Valid()
      modifies fs`refusals
      ensures fs.refusals == old(fs.refusals) + if r.Err? && BySystem(r.error) then 1 else 0
      ensures match r
              case Ok(o) =>
                && fresh(o) && fresh(o.file) && o.fs == fs && o.name == name && o.writable == writable
                && o.Valid() && o.Coherent()
                && Object(name) in fs.disk.dir && o.file.ino == fs.disk.dir[Object(name)]
              case Err(e) =>
                || e in {IO(Call.Open), IO(Seek), IO(Call.Read)}
                || (e == IO(NotFound) && Object(name) !in fs.disk.dir)
                || (Object(name) in fs.disk.dir
                    && OpenBytes(fs.rules, fs.disk.files[fs.disk.dir[Object(name)]].bytes) == Err(e))
    {
      hide OpenBytes;
      var file := fs.Open(Object(name));
      if file.Err? { return Err(file.error); }
      r := FromFile(file.value, name, writable);
    }

    /** Reads the header, then the whole metadata section into a buffer, and decodes both. */
    static method FromFile(file: File, name: string, writable: bool) returns (r: Result<TuxObject, FileError>)
      requires file.Valid()
      modifies file`pos, file.fs`refusals
      ensures file.fs.refusals == old(file.fs.refusals) + if r.Err? && BySystem(r.error) then 1 else 0
      ensures match r
              case Ok(o) =>
                && fresh(o) && o.fs == file.fs && o.file == file && o.name == name && o.writable == writable
                && o.Valid() && o.Coherent()
              case Err(e) => e in {IO(Seek), IO(Call.Read)} || OpenBytes(file.fs.rules, file.Bytes()) == Err(e)
    {
      hide DecodeHeader, DecodeBlock;
      ghost var bytes := file.Bytes();
      var seek := file.SeekStart(0);
      if seek.Err? { return Err(seek.error); }
      assert Drop(bytes, 0) == bytes;
      var headerBytes := file.ReadExact(HEADER_SIZE);
      if headerBytes.Err? { return Err(headerBytes.error); }
      var header := DecodeHeader(headerBytes.value);
      if header.Err? { return Err(Encoding(header.error)); }
      var h := header.value;
      var metadataSpace := if h.tagsStart >= HEADER_SIZE then h.tagsStart - HEADER_SIZE else 0;
      OpenIsWellTyped(file.fs.rules, bytes);
      NoneWellTyped(file.fs.rules, MetaKey);
      if metadataSpace == 0 {
        var o := new TuxObject(file, name, h, map[], writable);
        return Result.Ok(o);
      }
      var buffer := file.ReadExact(metadataSpace);
      if buffer.Err? { return Err(buffer.error); }
      assert buffer.value == bytes[HEADER_SIZE..h.tagsStart];
      var reader := new ByteReader(buffer.value);
      assert reader.Rest() == buffer.value;
      var metadata := Codec.ReadTags(file.fs.rules, MetaKey, reader);
      if metadata.Err? { return Err(Encoding(metadata.error)); }
      var o := new TuxObject(file, name, h, metadata.value, writable);
      return Result.Ok(o);
    }

    /** The bytes of the tag section; none when it has no space. */
    method ReadTagSection() returns (r: Result<seq<byte>, FileError>)
      requires Valid()
      modifies file`pos, fs`refusals
      ensures Valid()
      ensures fs.refusals == old(fs.refusals) + if r.Err? && BySystem(r.error) then 1 else 0
      ensures match r
              case Ok(b) => TagSection(file.Bytes(), header) == Result.Ok(b)
              case Err(e) => e in {IO(Seek), IO(Call.Read)} || TagSection(file.Bytes(), header) == Err(e)
    {
      if header.contentStart < header.tagsStart { return Err(Overflow); }
      var space := header.contentStart - header.tagsStart;
      if space == 0 { return Result.Ok([]); }
      var seek := file.SeekStart(header.tagsStart);
      if seek.Err? { return Err(seek.error); }
      r := file.ReadExact(space);
      assert r.Ok? ==> r.value == file.Bytes()[header.tagsStart..header.contentStart];
    }

    method ReadTags() returns (r: Result<Map, FileError>)
      requires Valid()
      modifies file`pos, fs`refusals
      ensures Valid()
      ensures fs.refusals == old(fs.refusals) + if r.Err? && BySystem(r.error) then 1 else 0
      ensures match r
              case Ok(t) => TagBytes(fs.rules, file.Bytes(), header) == Result.Ok(t)
              case Err(e) => e in {IO(Seek), IO(Call.Read)} || TagBytes(fs.rules, file.Bytes(), header) == Err(e)
    {
      hide DecodeBlock, TagSection;
      var section := ReadTagSection();
      if section.Err? { return Err(section.error); }
      if section.value == [] { return Result.Ok(map[]); }
      var reader := new ByteReader(section.value);
      assert reader.Rest() == section.value;
      var tags := Codec.ReadTags(fs.rules, TagKey, reader);
      match tags
      case Err(e) => return Err(Encoding(e));
      case Ok(t) => return Result.Ok(t);
    }

    method FindTag(key: seq<byte>) returns (r: Result<Option<ValueType>, FileError>)
      requires Valid()
      modifies file`pos, fs`refusals
      ensures Valid()
      ensures fs.refusals == old(fs.refusals) + if r.Err? && BySystem(r.error) then 1 else 0
      ensures match r
              case Ok(v) =>
                && TagSection(file.Bytes(), header).Ok?
                && var b := TagSection(file.Bytes(), header).value;
                   if b == [] then v == None else FindBlock(fs.rules, TagKey, b, key) == Result.Ok(v)
              case Err(e) =>
                || e in {IO(Seek), IO(Call.Read)}
                || TagSection(file.Bytes(), header) == Err(e)
                || (e.Encoding? && TagSection(file.Bytes(), header).Ok?
                    && FindBlock(fs.rules, TagKey, TagSection(file.Bytes(), header).value, key) == Err(e.error))
    {
      hide FindBlock, TagSection;
      var section := ReadTagSection();
      if section.Err? { return Err(section.error); }
      if section.value == [] { return Result.Ok(None); }
      var reader := new ByteReader(section.value);
      assert reader.Rest() == section.value;
      var found := Codec.FindTag(fs.rules, TagKey, reader, key);
      match found
      case Err(e) => return Err(Encoding(e));
      case Ok(v) => return Result.Ok(v);
    }

    /** The number of tags, from the first two bytes of the section. */
    method TagCount() returns (r: Result<nat, FileError>)
      requires Valid()
      modifies file`pos, fs`refusals
      ensures Valid()
      ensures fs.refusals == old(fs.refusals) + if r.Err? && BySystem(r.error) then 1 else 0
      ensures match r
              case Ok(n) =>
                var b := Drop(file.Bytes(), header.tagsStart);
                if header.contentStart == header.tagsStart then n == 0 else |b| >= 2 && n == FromLe(b[..2])
              case Err(e) =>
                || e in {IO(Seek), IO(Call.Read)}
                || (e == IO(UnexpectedEnd) && header.contentStart > header.tagsStart
                    && |Drop(file.Bytes(), header.tagsStart)| < 2)
                || (e == Overflow && header.contentStart < header.tagsStart)
    {
      if header.contentStart < header.tagsStart { return Err(Overflow); }
      if header.contentStart == header.tagsStart { return Result.Ok(0); }
      var seek := file.SeekStart(header.tagsStart);
      if seek.Err? { return Err(seek.error); }
      var b := file.ReadExact(2);
      match b
      case Err(e) => return Err(e);
      case Ok(b) => return Result.Ok(FromLe(b));
    }

    // ---- content --------------------------------------------------------------------------------

    method StoredContentReader() returns (r: Result<ContentReader, FileError>)
      requires Valid()
      modifies file`pos, fs`refusals
      ensures Valid()
      ensures fs.refusals == old(fs.refusals) + if r.Err? && BySystem(r.error) then 1 else 0
      ensures match r
              case Ok(c) => fresh(c) && c.file == file && c.ToCome() == StoredContent(file.Bytes(), header)
                            && c.remaining == header.contentLength
              case Err(e) => e == IO(Seek)
    {
      hide Window;
      var seek := file.SeekStart(header.contentStart);
      if seek.Err? { return Err(seek.error); }
      var c := new ContentReader(file, header.contentLength);
      return Result.Ok(c);
    }

    /** A byte range of the content; refused exactly as `RangeLength` says, before anything is sought. */
    method ContentRangeReader(offset: nat, length: Option<nat>) returns (r: Result<ContentReader, FileError>)
      requires Valid()
      modifies file`pos, fs`refusals
      ensures Valid()
      ensures fs.refusals == old(fs.refusals) + if r.Err? && BySystem(r.error) then 1 else 0
      ensures match r
              case Ok(c) =>
                && RangeLength(header, offset, length) == Result.Ok(c.remaining)
                && fresh(c) && c.file == file
                && c.ToCome() == Slice(StoredContent(file.Bytes(), header), offset, length)
              case Err(e) => e == IO(Seek) || RangeLength(header, offset, length) == Err(e)
      ensures RangeLength(header, offset, length).Err? ==> r.Err? && file.pos == old(file.pos)
    {
      hide Window, Slice, StoredContent;
      RangesAreSlices(file.Bytes(), header, offset, length);
      var n := RangeLength(header, offset, length);
      if n.Err? { return Err(n.error); }
      var seek := file.SeekStart(header.contentStart + offset);
      if seek.Err? { return Err(seek.error); }
      var c := new ContentReader(file, n.value);
      return Result.Ok(c);
    }

    /** The async `seek_within_content`: refused exactly as `RangeLength` says, or positioned on the range. */
    method SeekWithinContent(offset: nat, length: Option<nat>) returns (r: Result<nat, FileError>)
      requires Valid()
      modifies file`pos, fs`refusals
      ensures Valid()
      ensures fs.refusals == old(fs.refusals) + if r.Err? && BySystem(r.error) then 1 else 0
      ensures match r
              case Ok(n) =>
                && RangeLength(header, offset, length) == Result.Ok(n)
                && Window(file.Bytes(), file.pos, n) == Slice(StoredContent(file.Bytes(), header), offset, length)
              case Err(e) => e == IO(Seek) || RangeLength(header, offset, length) == Err(e)
      ensures RangeLength(header, offset, length).Err? ==> r.Err? && file.pos == old(file.pos)
    {
      hide Window, Slice, StoredContent;
      RangesAreSlices(file.Bytes(), header, offset, length);
      if !header.compression.NoCompression? { return Err(RangedReadOnCompressed); }
      if offset > header.contentLength {
        return Err(RangeOutOfBounds(offset, offset, header.contentLength));
      }
      var available := header.contentLength - offset;
      var wanted := if length.Some? then length.value else available;
      if wanted > available {
        return Err(RangeOutOfBounds(offset, if offset + wanted <= U64_MAX then offset + wanted else U64_MAX,
                                    header.contentLength));
      }
      if header.contentStart + offset > U64_MAX { return Err(Overflow); }
      var seek := file.SeekStart(header.contentStart + offset);
      if seek.Err? { return Err(seek.error); }
      return Result.Ok(wanted);
    }

    /** The async `content_range_reader`: a polled reader of the same range as the blocking one. */
    method PolledRangeReader(offset: nat, length: Option<nat>) returns (r: Result<ContentSection, FileError>)
      requires Valid()
      modifies file`pos, fs`refusals
      ensures Valid()
      ensures fs.refusals == old(fs.refusals) + if r.Err? && BySystem(r.error) then 1 else 0
      ensures match r
              case Ok(c) =>
                && RangeLength(header, offset, length) == Result.Ok(c.remaining)
                && fresh(c) && c.file == file
                && c.ToCome() == Slice(StoredContent(file.Bytes(), header), offset, length)
              case Err(e) => e == IO(Seek) || RangeLength(header, offset, length) == Err(e)
    {
      hide Window, Slice, StoredContent;
      var remaining := SeekWithinContent(offset, length);
      if remaining.Err? { return Err(remaining.error); }
      var c := new ContentSection(file, remaining.value);
      return Result.Ok(c);
    }

    /** Reads the content whole: as stored, or through the codec library, when this build has it. The buffer is
        allocated first, with the length the header declares. */
    method ReadContentToVec() returns (r: Result<seq<byte>, FileError>)
      requires Valid()
      modifies file`pos, fs`refusals
      ensures Valid()
      ensures r == Err(CapacityOverflow) <==> header.contentLength > ISIZE_MAX
      ensures match r
              case Ok(all) =>
                var stored := StoredContent(file.Bytes(), header);
                if header.compression.NoCompression? then all == stored
                else Supported(fs, header.compression) && fs.decode(header.compression, stored) == Some(all)
              case Err(e) =>
                || (e in {IO(Seek), IO(Call.Read)} && fs.refusals == old(fs.refusals) + 1)
                || (e == IO(Call.Read) && fs.decode(header.compression, StoredContent(file.Bytes(), header)) == None
                    && !header.compression.NoCompression?)
                || e == CapacityOverflow
                || (e == UnsupportedCompression && !Supported(fs, header.compression))
      ensures fs.refusals >= old(fs.refusals) && (r.Ok? ==> fs.refusals == old(fs.refusals))
    {
      hide StoredContent;
      if header.contentLength > ISIZE_MAX { return Err(CapacityOverflow); }
      var reader := StoredContentReader();
      if reader.Err? { return Err(reader.error); }
      if !Supported(fs, header.compression) { return Err(UnsupportedCompression); }
      r := reader.value.ReadToEnd();
      if r.Ok? && !header.compression.NoCompression? {
        var decoded := fs.decode(header.compression, r.value);
        return if decoded.Some? then Result.Ok(decoded.value) else Err(IO(Call.Read));
      }
    }

    // ---- section updates ------------------------------------------------------------------------

    /** Why an update to these sections is not carried out, other than by the system. */
    ghost predicate Refuses(m: Map, t: Map, e: FileError)
      requires Valid()
      reads this, fs`disk, fs`stuck, fs`counter
    {
      UpdateRefused(fs, fs.Names(name), writable, header, m, t, StoredContent(file.Bytes(), header), e)
    }

    /** `rewrite`: writes a replacement next to the object and renames it over the name. On success the handle moves to
        the new file; otherwise it stays on the old one, which nothing has touched. On a system that refuses nothing
        it succeeds exactly when there is no reason for the program to refuse it, and the new object is on stable
        storage, its name included. */
    method Rewrite(m: Map, t: Map) returns (r: Result<(), FileError>, ghost h: ObjectHeader, ghost ino: nat)
      requires Valid() && WellTypedMap(fs.rules, MetaKey, m) && WellTypedMap(fs.rules, TagKey, t)
      modifies this, file`pos, fs`disk, fs`counter, fs`stuck, fs`published, fs`refusals
      ensures fs.Valid() && Valid()
      ensures r.Ok? || r.error == IO(Call.Duplicate) ==>
                Rewrote(old(Replacement(m, t)), h, ino, old(fs.Now()), fs.Now())
      ensures r.Err? && r.error != IO(Call.Duplicate) ==> NoTrace(old(fs.Now()), fs.Now())
      ensures r.Ok? ==> fresh(file) && Is(fs, name, ino, h, m)
      ensures r.Err? ==> file == old(file) && header == old(header) && metadata == old(metadata)
      ensures r.Err? ==> file.Bytes() == old(file.Bytes())
      ensures Updated(old(Replacement(m, t)), old(fs.disk), fs.disk, r.Ok? || r.error == IO(Call.Duplicate))
      ensures !writable ==> r == Err(ReadOnly)
      ensures fs.refusals >= old(fs.refusals)
      ensures r.Err? ==>
                if BySystem(r.error) then fs.refusals > old(fs.refusals) else old(Refuses(m, t, r.error))
      ensures r.Ok? || r.error == IO(Call.Duplicate) ==> forall e :: !old(Refuses(m, t, e))
      ensures fs.refusals == old(fs.refusals) ==> (r.Ok? <==> forall e :: !old(Refuses(m, t, e)))
      ensures r.Ok? ==> fs.disk.files[ino].synced
      ensures r.Ok? && fs.refusals == old(fs.refusals) ==> Object(name) !in fs.disk.fallback
    {
      hide WellTypedMap, MapSize, Compute, StoredContent, OpenBytes, Fulfils, Repartition, Window, Began, Kept,
        Published, Abandoned, Rewrote, NoTrace, RewriteOffset, Filled, NotFilled, EndedFast,
        EndedSlow, Updated, Unencodable, UpdateRefused, FillRefused, PlanRefused, Copyable;
      ghost var content, h0 := StoredContent(file.Bytes(), header), header;
      h, ino := header, 0;
      ghost var s0, plan, mine, names := fs.Now(), Replacement(m, t), file.ino, fs.Names(name);
      NoTraceNow(s0);
      NotUpdated(plan, fs.disk);
      if !writable {
        ReadOnlyUpdate(fs, names, h0, m, t, content);
        return Err(ReadOnly), h, ino;
      }
      var options := CreateOptions(m, t, DEFAULT_OPTIONS.(minContentStart := header.contentStart), header.compression,
                                   true);
      assert plan.content == Window(file.Bytes(), header.contentStart, header.contentLength) by {
        ContentIsWindow(file.Bytes(), header);
      }
      assert fs.Names(name) == names;
      var created := CreateFilled(name, options, file, header.contentStart, header.contentLength, false);
      if created.Err? {
        UpdateGivenUp(plan, old(fs.disk), fs.disk);
        if !BySystem(created.error) { UpdateNotFilled(fs, names, h0, content, options, created.error); }
        return Err(created.error), h, ino;
      }
      var writer := created.value;
      ghost var s1, temp := fs.Now(), writer.tempPath.value;
      assert writer.Planned() == plan by { OffsetOfLayout(header.contentStart, MapSize(m), MapSize(t)); }
      ghost var d1 := fs.disk;
      ComputeThenRepartition(options.layout, MapSize(m), MapSize(t));
      ghost var again := fs.Names(name);
      var finished;
      finished, h, ino := writer.Finish();
      UpdateEnds(plan, old(fs.disk), d1, fs.disk, temp, finished.Ok? || finished.error == IO(Call.Duplicate));
      BeganKeeps(s0, s1, temp, writer.file.ino, mine);
      if finished.Ok? || finished.error == IO(Call.Duplicate) {
        FinishedRewrite(plan, h, ino, s0, s1, fs.Now(), temp, writer.file.ino, mine);
        RewroteIsLegal(plan, h, ino, s0, fs.Now());
      } else {
        BeganAbandoned(s0, s1, fs.Now(), temp, writer.file.ino);
        NoTraceKeeps(s0, fs.Now(), mine);
      }
      UpdateSettled(fs, plan, h0, m, t, content, names, again, options);
      if finished.Err? { return Err(finished.error), h, ino; }
      var replacement := finished.value;
      file := replacement.file;
      header := replacement.header;
      metadata := replacement.metadata;
      return Result.Ok(()), h, ino;
    }

    /** Why new metadata are not taken, other than by the system: tags that cannot be read, or a refused update. */
    ghost predicate RefusesMetadata(m: Map, e: FileError)
      requires Valid()
      reads this, fs`disk, fs`stuck, fs`counter
    {
      match StoredTags()
      case Err(unreadable) => e == unreadable
      case Ok(t) => Refuses(m, t, e)
    }

    /** `set_metadata`: the tags come from the file. On success the file holds the new metadata with the old tags and
        content; on failure the handle is as it was, on an untouched file. */
    method SetMetadata(m: Map) returns (r: Result<(), FileError>, ghost h: ObjectHeader, ghost ino: nat, ghost t: Map)
      requires Valid() && WellTypedMap(fs.rules, MetaKey, m)
      modifies this, file`pos, fs`disk, fs`counter, fs`stuck, fs`published, fs`refusals
      ensures fs.Valid() && Valid()
      ensures r.Ok? ==> HoldsObject(m, t, old(StoredContent(file.Bytes(), header)))
      ensures r.Ok? || r.error == IO(Call.Duplicate) ==>
                Rewrote(AtomicPlan(name, old(file.Bytes()), old(header), m, t), h, ino, old(fs.Now()), fs.Now())
      ensures r.Err? && r.error != IO(Call.Duplicate) ==> NoTrace(old(fs.Now()), fs.Now())
      ensures r.Ok? ==> fresh(file) && file.ino == ino
      ensures r.Err? ==> file == old(file) && header == old(header) && metadata == old(metadata)
      ensures r.Err? ==> file.Bytes() == old(file.Bytes())
      ensures r.Ok? || r.error == IO(Call.Duplicate) ==> old(StoredTags()) == Result.Ok(t)
      ensures fs.refusals >= old(fs.refusals)
      ensures r.Err? ==> if BySystem(r.error) then fs.refusals > old(fs.refusals) else old(RefusesMetadata(m, r.error))
      ensures fs.refusals == old(fs.refusals) ==> (r.Ok? <==> forall e :: !old(RefusesMetadata(m, e)))
      ensures r.Ok? ==> fs.disk.files[ino].synced
      ensures r.Ok? && fs.refusals == old(fs.refusals) ==> Object(name) !in fs.disk.fallback
    {
      hide WellTypedMap, StoredContent, OpenBytes, TagBytes, IsObject, NoTrace, Kept, MapSize, RewriteOffset, Rewrote,
        Fulfils, UpdateRefused;
      h, ino, t := header, 0, map[];
      NoTraceNow(fs.Now());
      ghost var file0 := file.Bytes();
      var tags := ReadTags();
      NotDuplicate(fs.rules, file0, header);
      if tags.Err? { return Err(tags.error), h, ino, t; }
      t := tags.value;
      OpenIsWellTyped(fs.rules, file.Bytes());
      ghost var plan, s0 := Replacement(m, t), fs.Now();
      assert fs.Names(name) == old(fs.Names(name)) && file.Bytes() == old(file.Bytes());
      label BeforeRewrite:
      r, h, ino := Rewrite(m, tags.value);
      if r.Ok? {
        RewroteObject(plan, h, ino, s0, fs.Now());
        forall e
          ensures !old(RefusesMetadata(m, e))
        {
          assert !old@BeforeRewrite(Refuses(m, t, e));
        }
      }
    }

    /** `set_tags`: the metadata is the cached one, which a coherent handle shares with its file. A handle that a torn
        write left behind may call it too, and is coherent afterwards. */
    method SetTags(t: Map) returns (r: Result<(), FileError>, ghost h: ObjectHeader, ghost ino: nat)
      requires Valid() && WellTypedMap(fs.rules, TagKey, t)
      modifies this, file`pos, fs`disk, fs`counter, fs`stuck, fs`published, fs`refusals
      ensures fs.Valid() && Valid()
      ensures r.Ok? ==> HoldsObject(old(metadata), t, old(StoredContent(file.Bytes(), header)))
      ensures r.Ok? || r.error == IO(Call.Duplicate) ==>
                Rewrote(old(Replacement(metadata, t)), h, ino, old(fs.Now()), fs.Now())
      ensures r.Err? && r.error != IO(Call.Duplicate) ==> NoTrace(old(fs.Now()), fs.Now())
      ensures r.Ok? ==> fresh(file) && file.ino == ino
      ensures r.Err? ==> file == old(file) && header == old(header) && metadata == old(metadata)
      ensures r.Err? ==> file.Bytes() == old(file.Bytes())
      ensures fs.refusals >= old(fs.refusals)
      ensures r.Err? ==>
                if BySystem(r.error) then fs.refusals > old(fs.refusals) else old(Refuses(metadata, t, r.error))
      ensures fs.refusals == old(fs.refusals) ==> (r.Ok? <==> forall e :: !old(Refuses(metadata, t, e)))
      ensures r.Ok? ==> fs.disk.files[ino].synced
      ensures r.Ok? && fs.refusals == old(fs.refusals) ==> Object(name) !in fs.disk.fallback
    {
      hide WellTypedMap, StoredContent, OpenBytes, TagBytes, IsObject, NoTrace, Kept, MapSize, RewriteOffset, Rewrote,
        Fulfils, UpdateRefused;
      ghost var plan, s0 := Replacement(metadata, t), fs.Now();
      r, h, ino := Rewrite(metadata, t);
      if r.Ok? { RewroteObject(plan, h, ino, s0, fs.Now()); }
    }

    /** The handle's file is a complete object with these sections and this content, and the cache agrees with it. */
    ghost predicate HoldsObject(m: Map, t: Map, content: seq<byte>)
      requires Valid()
      reads this, fs`disk, fs`stuck
    {
      Coherent() && metadata == m && IsObject(file.Bytes(), header, m, t, content)
    }

    /** Writes over the front of the file. An I/O failure may leave part of it written, but nothing behind it. */
    method WritePrefix(prefix: seq<byte>) returns (r: Result<(), FileError>)
      requires Valid()
      modifies file`pos, fs`disk, fs`refusals
      ensures Valid() && fs.disk.dir == old(fs.disk.dir) && OnlyFile(old(fs.Now()), fs.Now(), file.ino)
      ensures fs.refusals == old(fs.refusals) + if r.Err? then 1 else 0
      ensures Drop(file.Bytes(), |prefix|) == old(Drop(file.Bytes(), |prefix|))
      ensures match r
              case Ok(_) => file.Bytes() == prefix + old(Drop(file.Bytes(), |prefix|))
              case Err(IO(Flush)) => file.Bytes() == prefix + old(Drop(file.Bytes(), |prefix|))
              case Err(e) =>
                && e.IO? && BySystem(e) && PartOverwritten(old(file.Bytes()), file.Bytes(), prefix)
                && (e in {IO(Call.Write), IO(WriteZero)} || file.Bytes() == old(file.Bytes()))
    {
      hide Drop, Overwrite;
      assert fs.Now().files == fs.Now().files[file.ino := fs.Now().files[file.ino]];
      NothingOverwritten(file.Bytes(), prefix);
      r := file.SeekStart(0);
      if r.Err? { return; }
      r := file.WriteAll(prefix);
      if r.Err? {
        ghost var n: nat :| n <= |prefix| && fs.disk == old(fs.disk).WriteAt(file.ino, 0, prefix[..n]);
        OverwriteBefore(old(file.Bytes()), prefix[..n], |prefix|);
        assert file.Bytes() == Overwrite(old(file.Bytes()), 0, prefix[..n]);
        return;
      }
      OverwritePrefix(old(file.Bytes()), prefix);
      OverwriteBefore(old(file.Bytes()), prefix, |prefix|);
      r := file.Flush();
    }

    /** The prefix an in-place update writes, or why it is refused: by the layout, by the encoder, or for being
        read-only. */
    method PrepareInPlace(m: Map, t: Map)
      returns (r: Result<(ObjectHeader, seq<byte>), FileError>, ghost mo: seq<Entry>, ghost to: seq<Entry>)
      ensures match r
              case Ok((h, prefix)) =>
                && writable && InPlacePrefix(header, m, t, mo, to, prefix)
                && h == InPlaceHeader(header, m, t)
              case Err(e) => !e.IO? && Refusal(header, writable, m, t, e)
      ensures r.Ok? ==> forall e :: !Refusal(header, writable, m, t, e)
    {
      hide LegalMap, MapSize, Prefix, Enumerates, Repartition;
      mo, to := [], [];
      if !writable { return Err(ReadOnly), mo, to; }
      var metadataSize := Codec.SizeOf(m);
      var tagsSize := Codec.SizeOf(t);
      var fit := Repartition(header.contentStart, metadataSize, tagsSize, DEFAULT_ALIGNMENT);
      if fit.Overflows? { return Err(Overflow), mo, to; }
      if fit.NoFit? {
        return Err(ReservedSpaceExceeded(HEADER_SIZE + metadataSize + tagsSize, header.contentStart)), mo, to;
      }
      RepartitionIsSound(header.contentStart, metadataSize, tagsSize, DEFAULT_ALIGNMENT);
      var layout := fit.layout;
      var h := header.(tagsStart := layout.tagsStart, contentStart := layout.contentStart);
      var prefix;
      prefix, mo, to := EncodePrefix(h, m, t, layout);
      if prefix.Err? { return Err(prefix.error), mo, to; }
      return Result.Ok((h, prefix.value)), mo, to;
    }

    /** `set_sections_in_place`. On success the prefix in front of the content is replaced, every byte from the content
        on is what it was, and the cache moves along. A refusal, by the layout or by the encoder, changes nothing. An
        I/O failure while writing leaves the content alone but some part of the prefix written, and the cache as it was;
        after a failed flush, all of it, so that the cache agrees exactly when the update changed neither header nor
        metadata. */
    method SetSectionsInPlace(m: Map, t: Map)
      returns (r: Result<(), FileError>, ghost mo: seq<Entry>, ghost to: seq<Entry>, ghost prefix: seq<byte>)
      requires Valid() && WellTypedMap(fs.rules, MetaKey, m) && WellTypedMap(fs.rules, TagKey, t)
      modifies this`header, this`metadata, file`pos, fs`disk, fs`refusals
      ensures fs.Valid() && Valid() && fs.disk.dir == old(fs.disk.dir)
      ensures OnlyFile(old(fs.Now()), fs.Now(), file.ino)
      ensures r.Ok? || r.error in {IO(Call.Write), IO(WriteZero), IO(Call.Flush)} ==>
                writable && InPlacePrefix(old(header), m, t, mo, to, prefix)
      ensures r.Ok? ==>
                && header == InPlaceHeader(old(header), m, t) && metadata == m
                && file.Bytes() == prefix + Drop(old(file.Bytes()), header.contentStart)
      ensures r.Ok? ==>
                && Coherent() && StoredTags() == Result.Ok(t)
                && StoredContent(file.Bytes(), header) == old(StoredContent(file.Bytes(), header))
      ensures r.Err? ==> header == old(header) && metadata == old(metadata)
      ensures r.Err? ==> Drop(file.Bytes(), header.contentStart) == old(Drop(file.Bytes(), header.contentStart))
      ensures r.Err? && r.error in {IO(Call.Write), IO(WriteZero)} ==>
                PartOverwritten(old(file.Bytes()), file.Bytes(), prefix)
      ensures r == Err(IO(Call.Flush)) ==> (Coherent() <==> m == metadata && InPlaceHeader(header, m, t) == header)
      ensures r.Err? && r.error !in {IO(Call.Write), IO(WriteZero), IO(Call.Flush)} ==>
                file.Bytes() == old(file.Bytes())
      ensures fs.refusals == old(fs.refusals) + if r.Err? && r.error.IO? then 1 else 0
      ensures r.Err? && !r.error.IO? ==> Refusal(header, writable, m, t, r.error)
      ensures fs.refusals == old(fs.refusals) ==> (r.Ok? <==> forall e :: !Refusal(old(header), writable, m, t, e))
    {
      hide WellTypedMap, LegalMap, MapSize, Prefix, Enumerates, Repartition, OpenBytes, TagBytes, InPlacePrefix,
        Refusal, PlannedInPlace;
      prefix := [];
      assert fs.Now().files == fs.Now().files[file.ino := fs.Now().files[file.ino]];
      var prepared;
      prepared, mo, to := PrepareInPlace(m, t);
      if prepared.Err? { return Err(prepared.error), mo, to, prefix; }
      var (h, bytes) := prepared.value;
      prefix := bytes;
      InPlaceDecodes(fs.rules, header, m, t, mo, to, prefix, Drop(file.Bytes(), header.contentStart));
      r := WritePrefix(bytes);
      if r.Err? { return; }
      header := h;
      metadata := m;
    }
  }

  lemma ReadOnlyUpdate(fs: FileSystem, names: Names, h: ObjectHeader, m: Map, t: Map, content: seq<byte>)
    ensures UpdateRefused(fs, names, false, h, m, t, content, ReadOnly)
  {
  }

  lemma UpdateNotFilled(fs: FileSystem, names: Names, h: ObjectHeader, content: seq<byte>, o: CreateOptions,
                        e: FileError)
    requires FillRefused(fs, names, o, content, e)
    requires o.layout == DEFAULT_OPTIONS.(minContentStart := h.contentStart) && o.compression == h.compression
    ensures UpdateRefused(fs, names, true, h, o.metadata, o.tags, content, e)
  {
    hide MapSize, Compute, LegalMap;
  }

  /** Once the writer is filled, only sections that cannot be encoded are left to refuse the update. */
  lemma UpdateSettled(fs: FileSystem, p: Plan, h: ObjectHeader, m: Map, t: Map, content: seq<byte>, names: Names,
                      again: Names, o: CreateOptions)
    requires Supported(fs, h.compression) && PlannedFit(p).Fits? && p.metadata == m && p.tags == t
    requires o.layout == DEFAULT_OPTIONS.(minContentStart := h.contentStart) && o.compression == h.compression
    requires o.metadata == m && o.tags == t && forall e :: !FillRefused(fs, names, o, content, e)
    ensures forall e :: UpdateRefused(fs, names, true, h, m, t, content, e) <==> PlanRefused(p, again, e)
  {
    hide MapSize, Compute, LegalMap, Repartition, Unencodable;
    var layout := Compute(o.layout, MapSize(m), MapSize(t));
    if layout.Err? { assert !FillRefused(fs, names, o, content, layout.error); }
    assert !FillRefused(fs, names, o, content, IO(NamesExhausted));
    assert !FillRefused(fs, names, o, content, RawWriteRefused);
  }

  lemma RewroteIsLegal(p: Plan, h: ObjectHeader, ino: nat, s0: Snapshot, s1: Snapshot)
    requires Rewrote(p, h, ino, s0, s1)
    ensures forall e :: !Unencodable(p.metadata, p.tags, e)
    ensures p.sync ==> ino in s1.files && s1.files[ino].synced
  {
    hide LegalMap;
  }

  /** Where an in-place update would put the sections. */
  ghost function PlannedInPlace(h: ObjectHeader, m: Map, t: Map): Fit {
    Repartition(h.contentStart, MapSize(m), MapSize(t), DEFAULT_ALIGNMENT)
  }

  /** The header after an in-place update: only the tag offset may move. */
  ghost function InPlaceHeader(h: ObjectHeader, m: Map, t: Map): ObjectHeader {
    if PlannedInPlace(h, m, t).Fits? && PlannedInPlace(h, m, t).layout.tagsStart <= U16_MAX
    then h.(tagsStart := PlannedInPlace(h, m, t).layout.tagsStart)
    else h
  }

  /** The bytes an in-place update writes in front of the content. */
  ghost predicate InPlacePrefix(h: ObjectHeader, m: Map, t: Map, mo: seq<Entry>, to: seq<Entry>, prefix: seq<byte>) {
    && PlannedInPlace(h, m, t).Fits? && PlannedInPlace(h, m, t).layout == InPlaceHeader(h, m, t).Layout()
    && LegalMap(m) && LegalMap(t) && Enumerates(mo, m) && Enumerates(to, t)
    && SectionsFit(InPlaceHeader(h, m, t).Layout(), mo, to) && prefix == Prefix(InPlaceHeader(h, m, t), mo, to)
  }

  /** Why an in-place update is refused before anything is written: in this order, and for no other reason. */
  ghost predicate Refusal(h: ObjectHeader, writable: bool, m: Map, t: Map, e: FileError) {
    if !writable then e == ReadOnly
    else
      match PlannedInPlace(h, m, t)
      case Overflows => e == Overflow
      case NoFit => e == ReservedSpaceExceeded(HEADER_SIZE + MapSize(m) + MapSize(t), h.contentStart)
      case Fits(_) => Unencodable(m, t, e)
  }

  lemma InPlaceDecodes(rules: TextRules, h: ObjectHeader, m: Map, t: Map, mo: seq<Entry>, to: seq<Entry>,
                       prefix: seq<byte>, rest: seq<byte>)
    requires h.version == CURRENT_VERSION && InPlacePrefix(h, m, t, mo, to, prefix)
    requires WellTypedMap(rules, MetaKey, m) && WellTypedMap(rules, TagKey, t)
    ensures var h' := InPlaceHeader(h, m, t);
            && |prefix| == h.contentStart == h'.contentStart && h'.version == CURRENT_VERSION
            && h'.contentLength == h.contentLength
            && OpenBytes(rules, prefix + rest) == Result.Ok((h', m))
            && TagBytes(rules, prefix + rest, h') == Result.Ok(t)
            && Drop(prefix + rest, h'.contentStart) == rest
  {
    hide MapSize, Repartition, LegalMap, WellTypedMap, Enumerates, Prefix, OpenBytes, TagBytes;
    PrefixDecodes(rules, InPlaceHeader(h, m, t), m, t, mo, to, rest);
  }

  /** Some part of the prefix, from its start on, was written over the front of the file. */
  ghost predicate PartOverwritten(before: seq<byte>, now: seq<byte>, prefix: seq<byte>) {
    exists n: nat :: n <= |prefix| && now == Overwrite(before, 0, prefix[..n])
  }

  lemma NothingOverwritten(before: seq<byte>, prefix: seq<byte>)
    ensures PartOverwritten(before, before, prefix)
  {
    assert before == Overwrite(before, 0, prefix[..0]);
  }

  /** A write at the start that ends by `bound` leaves what lies behind `bound` alone. */
  lemma OverwriteBefore(b: seq<byte>, data: seq<byte>, bound: nat)
    requires |data| <= bound
    ensures Drop(Overwrite(b, 0, data), bound) == Drop(b, bound)
  {
    OverwritePrefix(b, data);
  }

  lemma NotDuplicate(rules: ParseRules, file: seq<byte>, h: ObjectHeader)
    ensures TagBytes(rules, file, h) != Err(IO(Call.Duplicate))
  {
    hide DecodeBlock;
  }

  lemma NoTraceNow(s: Snapshot)
    ensures NoTrace(s, s)
  {
  }

  lemma ContentIsWindow(file: seq<byte>, h: ObjectHeader)
    ensures StoredContent(file, h) == Window(file, h.contentStart, h.contentLength)
  {
  }

  lemma OffsetOfLayout(contentStart: nat, metadataSize: nat, tagsSize: nat)
    ensures match Compute(DEFAULT_OPTIONS.(minContentStart := contentStart), metadataSize, tagsSize)
            case Ok(l) => RewriteOffset(contentStart, metadataSize, tagsSize) == l.contentStart
            case Err(_) => RewriteOffset(contentStart, metadataSize, tagsSize) == contentStart
  {
  }

  lemma FinishedRewrite(p: Plan, h: ObjectHeader, ino: nat, s0: Snapshot, s1: Snapshot, s2: Snapshot, temp: Path,
                        ino': nat, mine: nat)
    requires Began(s0, s1, temp, ino') && Published(p, h, ino, s1, s2, temp, ino') && temp.Temp? && mine in s0.files
    ensures Rewrote(p, h, ino, s0, s2)
    ensures mine in s2.files && s2.files[mine] == s0.files[mine]
  {
    hide Fulfils;
    assert s0.entries[temp := ino'] - {temp} == s0.entries;
  }
}
