/** The publish protocol as a step relation: any number of writers, atomic setters and readers on one directory, and
    crashes. One step is one call on the disk. */
module Protocol {
  import opened Outcome
  import opened Bytes
  import opened Blocks
  import opened Layout
  import opened Objects
  import opened Prefixes
  import opened Disks
  import opened ObjectFiles

  /** How far a writer has come: streaming content, writing the prefix, or ready to rename. */
  datatype Phase = Streaming | Sealing(written: nat) | Sealed

  /** A writer. `copies` is the content it has to copy from another file, if it is not written by a caller; `prefix` is
      what it decided to put in front of the content. */
  datatype Writer = Writer(
    name: string,
    temp: Path,
    ino: nat,
    contentStart: nat,
    alignment: nat,
    metadata: Map,
    tags: Map,
    content: seq<byte>,
    copies: Option<seq<byte>>,
    sync: bool,
    phase: Phase,
    header: ObjectHeader,
    prefix: seq<byte>)
  {
    /** The file once the prefix is written. */
    function Image(): seq<byte> {
      prefix + content
    }
  }

  /** A reader holds on to the file it opened; `bytes` is what it held then. */
  datatype Reader = Reader(ino: nat, bytes: seq<byte>)

  /** `initial` and `made` are the names with the bytes they started with and with the bytes some `finish` put there;
      `left` are the temporary entries nobody owns any more; `durable` are the names only ever written with `sync`. */
  datatype State = State(
    disk: Disk,
    writers: map<nat, Writer>,
    readers: map<nat, Reader>,
    initial: set<(string, seq<byte>)>,
    made: set<(string, seq<byte>)>,
    left: set<Path>,
    durable: set<string>,
    crashed: bool)

  /** Where the content of a new writer comes from: its caller, the writer it replaces, or an object being updated. */
  datatype Source = Caller | Rewriting(other: nat) | Updating(reader: nat, header: ObjectHeader)

  datatype Step =
    | Begin(w: nat, writer: Writer, source: Source)
    | Accept(w: nat, data: seq<byte>)
    | Edit(w: nat, metadata: Map, tags: Map)
    | Decide(w: nat, header: ObjectHeader, mo: seq<Entry>, to: seq<Entry>)
    | WritePrefix(w: nat, count: nat)
    | Flush(w: nat)
    | Publish(w: nat)
    | PublishFails(w: nat)
    | Vanish(w: nat, removed: bool)
    | SyncDirectory
    | Open(reader: nat, name: string)
    | Close(reader: nat)
    | Crash(after: Disk)

  /** What a crash may leave: every changed entry at its present value or one it had since the directory was last
      flushed, and the bytes of flushed files; of other files, anything. */
  ghost predicate CrashOf(d: Disk, after: Disk) {
    && (forall p :: after.Entry(p) in d.MayBe(p))
    && after.files.Keys == d.files.Keys && after.next == d.next && after.fallback == map[]
    && (forall i :: i in d.files ==> after.files[i].synced)
    && (forall i :: i in d.files && d.files[i].synced ==> after.files[i].bytes == d.files[i].bytes)
  }

  /** What a new writer has to copy before it may finish. */
  ghost predicate ContentFrom(s: State, source: Source, copies: Option<seq<byte>>) {
    match source
    case Caller => copies == None
    case Rewriting(other) => other in s.writers && copies == Some(s.writers[other].content)
    case Updating(reader, h) => reader in s.readers && copies == Some(StoredContent(s.readers[reader].bytes, h))
  }

  ghost predicate CanBegin(s: State, w: nat, x: Writer, source: Source) {
    && w !in s.writers && x.temp.Temp? && x.temp !in s.disk.dir && x.ino == s.disk.next
    && HEADER_SIZE <= x.contentStart <= U32_MAX && x.content == [] && x.phase == Streaming
    && ContentFrom(s, source, x.copies)
    && (x.name in s.durable ==> x.sync)
  }

  /** `finish` has a layout for the sections and a prefix that encodes them in some iteration order. */
  ghost predicate CanDecide(x: Writer, h: ObjectHeader, mo: seq<Entry>, to: seq<Entry>) {
    && x.phase == Streaming && (x.copies.Some? ==> x.content == x.copies.value)
    && LegalMap(x.metadata) && LegalMap(x.tags) && Enumerates(mo, x.metadata) && Enumerates(to, x.tags)
    && Repartition(x.contentStart, MapSize(x.metadata), MapSize(x.tags), x.alignment) == Fits(h.Layout())
    && h.version == CURRENT_VERSION && h.contentLength == |x.content| && h.bitFlags == 0
  }

  ghost predicate Enabled(s: State, step: Step) {
    match step
    case Begin(w, x, source) => CanBegin(s, w, x, source)
    case Accept(w, data) =>
      && w in s.writers && s.writers[w].phase == Streaming
      && (s.writers[w].copies.Some? ==> s.writers[w].content + data <= s.writers[w].copies.value)
    case Edit(w, m, t) => w in s.writers && s.writers[w].phase == Streaming
    case Decide(w, h, mo, to) => w in s.writers && CanDecide(s.writers[w], h, mo, to)
    case WritePrefix(w, count) =>
      && w in s.writers && s.writers[w].phase.Sealing?
      && s.writers[w].phase.written + count <= |s.writers[w].prefix|
    case Flush(w) => w in s.writers && s.writers[w].phase == Sealing(|s.writers[w].prefix|)
    case Publish(w) => w in s.writers && s.writers[w].phase == Sealed
    case PublishFails(w) => w in s.writers && s.writers[w].phase == Sealed
    case Vanish(w, _) => w in s.writers
    case SyncDirectory => true
    case Open(r, name) => r !in s.readers && Object(name) in s.disk.dir
    case Close(r) => r in s.readers
    case Crash(after) => CrashOf(s.disk, after)
  }

  /** Every entry and every writer has its file. */
  ghost predicate Ready(s: State) {
    && s.disk.Ok()
    && forall w :: w in s.writers ==> s.writers[w].temp in s.disk.dir && s.writers[w].ino in s.disk.files
  }

  /** A writer after its content grew. */
  function Grown(x: Writer, data: seq<byte>): Writer {
    x.(content := x.content + data)
  }

  lemma DecidedFits(x: Writer, h: ObjectHeader, mo: seq<Entry>, to: seq<Entry>)
    requires CanDecide(x, h, mo, to)
    ensures SectionsFit(h.Layout(), mo, to) && h.contentStart == x.contentStart
  {
    hide MapSize, LegalMap, Enumerates, Repartition, EncodeBlock;
    RepartitionIsSound(x.contentStart, MapSize(x.metadata), MapSize(x.tags), x.alignment);
    BlockSize(mo, x.metadata);
    BlockSize(to, x.tags);
  }

  function Decided(x: Writer, h: ObjectHeader, prefix: seq<byte>): Writer {
    x.(phase := Sealing(0), header := h, prefix := prefix)
  }

  ghost function Next(s: State, step: Step): State
    requires Ready(s) && Enabled(s, step)
  {
    match step
    case Begin(w, x, _) => s.(disk := s.disk.CreateNew(x.temp), writers := s.writers[w := x])
    case Accept(w, data) =>
      var x := s.writers[w];
      s.(disk := s.disk.WriteAt(x.ino, x.contentStart + |x.content|, data), writers := s.writers[w := Grown(x, data)])
    case Edit(w, m, t) => s.(writers := s.writers[w := s.writers[w].(metadata := m, tags := t)])
    case Decide(w, h, mo, to) =>
      DecidedFits(s.writers[w], h, mo, to);
      s.(writers := s.writers[w := Decided(s.writers[w], h, Prefix(h, mo, to))])
    case WritePrefix(w, count) =>
      var x := s.writers[w];
      var n := x.phase.written;
      s.(disk := s.disk.WriteAt(x.ino, n, x.prefix[n..n + count]),
         writers := s.writers[w := x.(phase := Sealing(n + count))])
    case Flush(w) =>
      var x := s.writers[w];
      s.(disk := if x.sync then s.disk.Sync(x.ino) else s.disk, writers := s.writers[w := x.(phase := Sealed)])
    case Publish(w) =>
      var x := s.writers[w];
      s.(disk := s.disk.Rename(x.temp, Object(x.name)), writers := s.writers - {w},
         made := s.made + {(x.name, x.Image())})
    case PublishFails(w) => s.(writers := s.writers - {w}, left := s.left + {s.writers[w].temp})
    case Vanish(w, removed) =>
      var temp := s.writers[w].temp;
      if removed then s.(disk := s.disk.Unlink(temp), writers := s.writers - {w})
      else s.(writers := s.writers - {w}, left := s.left + {temp})
    case SyncDirectory => s.(disk := s.disk.SyncDirectory())
    case Open(r, name) =>
      var ino := s.disk.dir[Object(name)];
      s.(readers := s.readers[r := Reader(ino, s.disk.files[ino].bytes)])
    case Close(r) => s.(readers := s.readers - {r})
    case Crash(after) =>
      s.(disk := after, writers := map[], readers := map[], crashed := true, left := set p | p in after.dir && p.Temp?)
  }
}
