/** Whole runs through the classes: publishing an object, and a session on an open one. */
module Runs {
  import opened Outcome
  import opened Bytes
  import opened Values
  import opened Blocks
  import opened Layout
  import opened Objects
  import opened Disks
  import opened FileSystems
  import opened ContentReaders
  import opened ObjectFiles
  import opened Updates

  // ---- publishing -------------------------------------------------------------------------------

  /** What a caller does with a writer before finishing it. */
  datatype Edit = Append(data: seq<byte>) | ReplaceMetadata(m: Map) | ReplaceTags(t: Map) | OpenEncoder

  ghost predicate WellTypedEdit(rules: TextRules, e: Edit) {
    match e
    case ReplaceMetadata(m) => WellTypedMap(rules, MetaKey, m)
    case ReplaceTags(t) => WellTypedMap(rules, TagKey, t)
    case _ => true
  }

  function LastMetadata(first: Map, edits: seq<Edit>): Map {
    if edits == [] then first
    else if edits[|edits| - 1].ReplaceMetadata? then edits[|edits| - 1].m
    else LastMetadata(first, edits[..|edits| - 1])
  }

  function LastTags(first: Map, edits: seq<Edit>): Map {
    if edits == [] then first
    else if edits[|edits| - 1].ReplaceTags? then edits[|edits| - 1].t
    else LastTags(first, edits[..|edits| - 1])
  }

  /** The bytes accepted from the appends: a prefix of each, whose length is the count its write returned, or nothing
      when it failed. */
  function Accepted(edits: seq<Edit>, counts: seq<nat>): seq<byte>
    requires |counts| == |edits|
    requires forall i :: 0 <= i < |edits| && edits[i].Append? ==> counts[i] <= |edits[i].data|
  {
    if edits == [] then []
    else
      var last := |edits| - 1;
      Accepted(edits[..last], counts[..last]) + if edits[last].Append? then edits[last].data[..counts[last]] else []
  }

  /** The plan after one edit, `count` bytes of an append having been accepted. */
  ghost function After(p: Plan, e: Edit, count: nat): Plan
    requires e.Append? ==> count <= |e.data|
  {
    match e
    case Append(data) => p.(content := p.content + data[..count])
    case ReplaceMetadata(m) => p.(metadata := m)
    case ReplaceTags(t) => p.(tags := t)
    case OpenEncoder => p
  }

  method Apply(w: ObjectWriter, e: Edit) returns (count: Result<nat, FileError>)
    requires w.Valid() && WellTypedEdit(w.fs.rules, e)
    modifies w, w.file`pos, w.fs`disk, w.fs`refusals
    ensures w.Valid() && w.tempPath == old(w.tempPath) && OnlyFile(old(w.fs.Now()), w.fs.Now(), w.file.ino)
    ensures count.Ok? ==>
              && (e.Append? ==> count.value <= |e.data|)
              && w.Planned() == After(old(w.Planned()), e, count.value)
    ensures count.Err? ==> e.Append? && w.Planned() == old(w.Planned())
    ensures w.fs.disk.dir == old(w.fs.disk.dir) && w.fs.counter == old(w.fs.counter)
    ensures w.fs.refusals >= old(w.fs.refusals)
    ensures count.Err? && count.error != RawWriteRefused ==> w.fs.refusals > old(w.fs.refusals)
  {
    hide WellTypedMap, Staged;
    assert w.fs.Now().files == w.fs.Now().files[w.file.ino := w.fs.Now().files[w.file.ino]];
    count := Result.Ok(0);
    match e {
      case Append(data) => count := w.Write(data);
      case ReplaceMetadata(m) => w.SetMetadata(m);
      case ReplaceTags(t) => w.SetTags(t);
      case OpenEncoder => var _ := w.ContentEncoder();
    }
  }

  /** The name holds a complete object with these sections, this content and this compression. */
  ghost predicate Holds(fs: FileSystem, name: string, m: Map, t: Map, content: seq<byte>, c: CompressionType)
    reads fs`disk, fs`stuck
  {
    && Object(name) in fs.Visible() && fs.disk.dir[Object(name)] in fs.disk.files
    && exists h: ObjectHeader ::
         h.compression == c && IsObject(fs.disk.files[fs.disk.dir[Object(name)]].bytes, h, m, t, content)
  }

  /** An open handle shows exactly these sections and this content. */
  ghost predicate Shows(o: TuxObject, m: Map, t: Map, content: seq<byte>)
    reads o, o.fs`disk, o.fs`stuck, o.fs`published
  {
    && o.Valid() && o.Coherent() && o.metadata == m
    && TagBytes(o.fs.rules, o.file.Bytes(), o.header) == Result.Ok(t)
    && StoredContent(o.file.Bytes(), o.header) == content && o.header.contentLength == |content|
  }

  method FinishAndReopen(w: ObjectWriter) returns (r: Result<TuxObject, FileError>, published: bool)
    requires w.Valid()
    modifies w, w.file`pos, w.fs`disk, w.fs`counter, w.fs`stuck, w.fs`published, w.fs`refusals
    ensures w.fs.Valid()
    ensures var p := old(w.Planned());
            && (published ==> Holds(w.fs, p.name, p.metadata, p.tags, p.content, p.compression))
            && (r.Ok? ==> published && r.value.fs == w.fs && Shows(r.value, p.metadata, p.tags, p.content)
                          && r.value.header.compression == p.compression)
    ensures !published ==> r.Err? && Abandoned(old(w.fs.Now()), w.fs.Now(), old(w.tempPath.value), w.file.ino)
    ensures w.fs.refusals >= old(w.fs.refusals)
    ensures Answered(old(w.Planned()), old(w.fs.Names(w.finalName)), if published then None else ErrorOf(r),
                     old(w.fs.refusals), w.fs.refusals)
    ensures published && r.Err? ==> BySystem(r.error) && w.fs.refusals > old(w.fs.refusals)
    ensures published && w.sync && w.fs.refusals == old(w.fs.refusals) ==> OnStableStorage(w.fs.disk, w.finalName)
  {
    hide WellTypedMap, MapSize, OpenBytes, TagBytes, StoredContent, IsObject, Published, Abandoned, Answered, NamesFrom,
      EndedFast, EndedSlow, ObjectWriter.Valid;
    WriterParts(w);
    ghost var p, s1, temp := w.Planned(), w.fs.Now(), w.tempPath.value;
    ghost var names, before := w.fs.Names(w.finalName), w.fs.refusals;
    var finished; ghost var h, ino;
    finished, h, ino := w.Finish();
    published := finished.Ok? || finished.error == IO(Call.Duplicate);
    ghost var later := w.fs.refusals;
    AnsweredLater(p, names, ErrorOf(finished), before, later, later);
    if published {
      PublishedEntry(p, h, ino, s1, w.fs.Now(), temp, w.file.ino);
    }
    if finished.Err? { return Err(finished.error), published; }
    r := TuxObject.Open(w.fs, w.finalName, false);
    AnsweredLater(p, names, None, before, later, w.fs.refusals);
    ObjectDecodes(w.fs.rules, w.fs.disk.files[ino].bytes, h, p.metadata, p.tags, p.content);
  }

  /** Why a run publishes nothing, other than by the system: its writer is not created, or its plan is refused. The disk
      and the counter are those at its start; the temporary names of a rewrite come behind the first one. */
  ghost predicate RunRefused(fs: FileSystem, d: Disk, counter: nat, name: string, options: CreateOptions,
                             edits: seq<Edit>, counts: seq<nat>, e: FileError)
  {
    || CreationRefused(fs, NamesFrom(d, fs.pid, name, counter), options, e)
    || (|counts| == |edits|
        && (forall i :: 0 <= i < |edits| && edits[i].Append? ==> counts[i] <= |edits[i].data|)
        && PlanOfRunRefused(fs, d, counter, RunPlan(name, options, edits, counts), options, e))
  }

  ghost predicate PlanOfRunRefused(fs: FileSystem, d: Disk, counter: nat, p: Plan, options: CreateOptions,
                                   e: FileError)
  {
    && Supported(fs, options.compression)
    && Compute(options.layout, MapSize(options.metadata), MapSize(options.tags)).Ok?
    && exists c: nat :: FirstFree(d, fs.pid, p.name, counter, c)
                     && PlanRefused(p, NamesFrom(d, fs.pid, p.name, c + 1), e)
  }

  /** What a run with these edits, of which this much was accepted, is to publish. */
  ghost function RunPlan(name: string, options: CreateOptions, edits: seq<Edit>, counts: seq<nat>): Plan
    requires |counts| == |edits|
    requires forall i :: 0 <= i < |edits| && edits[i].Append? ==> counts[i] <= |edits[i].data|
  {
    var layout := Compute(options.layout, MapSize(options.metadata), MapSize(options.tags));
    Plan(name, if layout.Ok? then layout.value.contentStart else 0, options.layout, options.compression,
         LastMetadata(options.metadata, edits), LastTags(options.tags, edits), Accepted(edits, counts), options.sync)
  }

  /** The temporary file of a run takes none of the names that come behind its own. */
  lemma NamesBehind(d: Disk, d': Disk, pid: nat, name: string, c: nat)
    requires d'.dir.Keys == d.dir.Keys + {Temp(name, pid, c)}
    ensures NamesFrom(d', pid, name, c + 1) == NamesFrom(d, pid, name, c + 1)
  {
    assert forall x: nat :: c + 1 <= x ==> (Temp(name, pid, x) in d'.dir <==> Temp(name, pid, x) in d.dir);
  }

  lemma PlanOfRun(fs: FileSystem, d: Disk, counter: nat, c: nat, p: Plan, options: CreateOptions)
    requires FirstFree(d, fs.pid, p.name, counter, c) && Supported(fs, options.compression)
    requires Compute(options.layout, MapSize(options.metadata), MapSize(options.tags)).Ok?
    ensures forall e :: PlanOfRunRefused(fs, d, counter, p, options, e)
                        <==> PlanRefused(p, NamesFrom(d, fs.pid, p.name, c + 1), e)
  {
    hide PlanRefused, NamesFrom, MapSize, Compute;
    forall c': nat | FirstFree(d, fs.pid, p.name, counter, c')
      ensures c' == c
    {
    }
  }

  /** The whole-run round trip. For any sequence of writes, with short counts and failures in between, and of changes to
      the sections, on the fast path or the rewrite path: when the run publishes, the final name holds exactly the last
      metadata, the last tags and the accepted bytes, and reopening it shows them; when it does not, it leaves no trace
      under any name. On a system that refuses no call it publishes, and reopens, exactly when there is no reason for
      the program to refuse its options or its plan, and with `sync` the object is on stable storage then. */
  method PublishRun(fs: FileSystem, name: string, options: CreateOptions, edits: seq<Edit>)
    returns (r: Result<TuxObject, FileError>, counts: seq<nat>, published: bool)
    requires fs.Valid() && WellTypedOptions(fs.rules, options)
    requires forall i :: 0 <= i < |edits| ==> WellTypedEdit(fs.rules, edits[i])
    modifies fs`disk, fs`counter, fs`stuck, fs`published, fs`refusals
    ensures fs.Valid()
    ensures published ==>
              && |counts| == |edits|
              && (forall i :: 0 <= i < |edits| && edits[i].Append? ==> counts[i] <= |edits[i].data|)
              && Holds(fs, name, LastMetadata(options.metadata, edits), LastTags(options.tags, edits),
                       Accepted(edits, counts), options.compression)
              && (r.Ok? ==> r.value.fs == fs && Shows(r.value, LastMetadata(options.metadata, edits),
                                                      LastTags(options.tags, edits), Accepted(edits, counts)))
    ensures !published ==> r.Err? && NoTrace(old(fs.Now()), fs.Now())
    ensures fs.refusals >= old(fs.refusals)
    ensures r.Err? ==>
              if BySystem(r.error) then fs.refusals > old(fs.refusals)
              else !published && RunRefused(fs, old(fs.disk), old(fs.counter), name, options, edits, counts, r.error)
    ensures fs.refusals == old(fs.refusals) ==>
              && (published <==> r.Ok?)
              && (published <==> forall e :: !RunRefused(fs, old(fs.disk), old(fs.counter), name, options, edits,
                                                         counts, e))
    ensures published && options.sync && fs.refusals == old(fs.refusals) ==> OnStableStorage(fs.disk, name)
  {
    hide WellTypedMap, Compute, MapSize, NoTrace, Began, OnlyFile, Abandoned, LastMetadata, LastTags, Accepted, Holds,
      Shows, CreationRefused, PlanRefused, OnStableStorage, NamesFrom, FirstFree, PlanOfRunRefused,
      RunRefused, Answered;
    counts, published := [], false;
    ghost var s0 := fs.Now();
    assert fs.Names(name) == NamesFrom(fs.disk, fs.pid, name, fs.counter);
    var created := ObjectWriter.Create(fs, name, options);
    if created.Err? {
      NotBegun(fs, old(fs.disk), old(fs.counter), name, options, edits, counts, created.error);
      return Err(created.error), counts, published;
    }
    var w := created.value;
    ghost var s1, temp, ino := fs.Now(), w.tempPath.value, w.file.ino;
    counts := ApplyAll(w, edits);
    ghost var s2 := fs.Now();
    BeganWrites(s0, s1, s2, temp, ino);
    NothingPlus(Accepted(edits, counts));
    NamesBehind(old(fs.disk), fs.disk, fs.pid, name, temp.counter);
    ghost var p, count := w.Planned(), fs.refusals;
    r, published := FinishAndReopen(w);
    RunOf(fs, old(fs.disk), old(fs.counter), name, options, edits, counts, temp.counter, p,
          if published then None else ErrorOf(r), count, fs.refusals);
    if !published {
      BeganAbandoned(s0, s2, fs.Now(), temp, ino);
    }
  }

  /** Applies the edits in order. A write that fails is passed over, and accepts nothing. */
  method ApplyAll(w: ObjectWriter, edits: seq<Edit>) returns (counts: seq<nat>)
    requires w.Valid() && forall i :: 0 <= i < |edits| ==> WellTypedEdit(w.fs.rules, edits[i])
    modifies w, w.file`pos, w.fs`disk, w.fs`refusals
    ensures w.Valid() && w.tempPath == old(w.tempPath) && OnlyFile(old(w.fs.Now()), w.fs.Now(), w.file.ino)
    ensures w.fs.disk.dir == old(w.fs.disk.dir) && w.fs.counter == old(w.fs.counter)
    ensures w.fs.refusals >= old(w.fs.refusals)
    ensures |counts| == |edits|
    ensures forall i :: 0 <= i < |edits| && edits[i].Append? ==> counts[i] <= |edits[i].data|
    ensures w.Planned() == old(w.Planned()).(metadata := LastMetadata(old(w.metadata), edits),
                                             tags := LastTags(old(w.tags), edits),
                                             content := old(w.content) + Accepted(edits, counts))
  {
    hide WellTypedMap, Compute, MapSize, LastMetadata, LastTags, Accepted, Staged, WellTypedEdit, Overwrite,
      ObjectWriter.Valid;
    ghost var first, s0 := w.Planned(), w.fs.Now();
    WriterHasItsFile(w);
    assert s0.files == s0.files[w.file.ino := s0.files[w.file.ino]];
    counts := [];
    EmptyRun(w.metadata, w.tags);
    assert w.content + [] == w.content;
    for i := 0 to |edits|
      invariant w.Valid() && w.tempPath == old(w.tempPath) && |counts| == i
      invariant forall j :: 0 <= j < i && edits[j].Append? ==> counts[j] <= |edits[j].data|
      invariant OnlyFile(s0, w.fs.Now(), w.file.ino) && w.fs.refusals >= old(w.fs.refusals)
      invariant w.fs.disk.dir == old(w.fs.disk.dir) && w.fs.counter == old(w.fs.counter)
      invariant w.Planned() == first.(metadata := LastMetadata(first.metadata, edits[..i]),
                                      tags := LastTags(first.tags, edits[..i]),
                                      content := first.content + Accepted(edits[..i], counts))
    {
      var applied := Apply(w, edits[i]);
      var count := if applied.Ok? then applied.value else 0;
      RunStep(first.metadata, first.tags, edits, counts, i, count);
      Associate(first.content, Accepted(edits[..i], counts), if edits[i].Append? then edits[i].data[..count] else []);
      NothingAfter(first.content + Accepted(edits[..i], counts));
      counts := counts + [count];
    }
    assert edits[..|edits|] == edits;
  }

  lemma NotBegun(fs: FileSystem, d: Disk, counter: nat, name: string, options: CreateOptions, edits: seq<Edit>,
                 counts: seq<nat>, e: FileError)
    requires BySystem(e) || CreationRefused(fs, NamesFrom(d, fs.pid, name, counter), options, e)
    ensures BySystem(e) || RunRefused(fs, d, counter, name, options, edits, counts, e)
  {
    hide CreationRefused, NamesFrom, PlanOfRunRefused;
  }

  /** How a run that got as far as `finish` answers, as against the reasons there are to refuse it. */
  lemma RunOf(fs: FileSystem, d: Disk, counter: nat, name: string, options: CreateOptions, edits: seq<Edit>,
              counts: seq<nat>, c: nat, p: Plan, answer: Option<FileError>, before: nat, now: nat)
    requires |counts| == |edits|
    requires forall i :: 0 <= i < |edits| && edits[i].Append? ==> counts[i] <= |edits[i].data|
    requires FirstFree(d, fs.pid, name, counter, c) && Supported(fs, options.compression)
    requires Compute(options.layout, MapSize(options.metadata), MapSize(options.tags)).Ok?
    requires forall e :: !CreationRefused(fs, NamesFrom(d, fs.pid, name, counter), options, e)
    requires p == RunPlan(name, options, edits, counts)
    requires Answered(p, NamesFrom(d, fs.pid, name, c + 1), answer, before, now)
    ensures answer.Some? ==>
              if BySystem(answer.value) then before < now
              else RunRefused(fs, d, counter, name, options, edits, counts, answer.value)
    ensures answer == None ==> forall e :: !RunRefused(fs, d, counter, name, options, edits, counts, e)
  {
    hide PlanRefused, NamesFrom, MapSize, Compute, CreationRefused, PlanOfRunRefused, FirstFree, Accepted,
      LastMetadata, LastTags;
    PlanOfRun(fs, d, counter, c, p, options);
  }

  lemma NothingAfter(s: seq<byte>)
    ensures s + [] == s
  {
  }

  lemma EmptyRun(m: Map, t: Map)
    ensures LastMetadata(m, []) == m && LastTags(t, []) == t && Accepted([], []) == []
  {
  }

  lemma RunStep(m: Map, t: Map, edits: seq<Edit>, counts: seq<nat>, i: nat, count: nat)
    requires i == |counts| < |edits|
    requires forall j :: 0 <= j < i && edits[j].Append? ==> counts[j] <= |edits[j].data|
    requires edits[i].Append? ==> count <= |edits[i].data|
    ensures var before, after := edits[..i], edits[..i + 1];
            && LastMetadata(m, after) == (if edits[i].ReplaceMetadata? then edits[i].m else LastMetadata(m, before))
            && LastTags(t, after) == (if edits[i].ReplaceTags? then edits[i].t else LastTags(t, before))
            && Accepted(after, counts + [count])
               == Accepted(before, counts) + if edits[i].Append? then edits[i].data[..count] else []
  {
    assert edits[..i + 1][..i] == edits[..i];
    assert (counts + [count])[..i] == counts;
  }

  lemma PublishedEntry(p: Plan, h: ObjectHeader, ino: nat, s1: Snapshot, s2: Snapshot, temp: Path, mine: nat)
    requires Published(p, h, ino, s1, s2, temp, mine)
    ensures Object(p.name) in s2.entries && s2.entries[Object(p.name)] == ino && ino in s2.files
    ensures IsObject(s2.files[ino].bytes, h, p.metadata, p.tags, p.content)
    ensures h.contentLength == |p.content| && h.compression == p.compression && (p.sync ==> s2.files[ino].synced)
  {
  }

  // ---- a session on one handle ------------------------------------------------------------------

  /** What a caller asks of an open object. */
  datatype Request =
    | SetMetadata(m: Map)
    | SetTags(t: Map)
    | SetInPlace(m: Map, t: Map)
    | ReadTags
    | ReadContent

  ghost predicate WellTypedRequest(rules: TextRules, q: Request) {
    match q
    case SetMetadata(m) => WellTypedMap(rules, MetaKey, m)
    case SetTags(t) => WellTypedMap(rules, TagKey, t)
    case SetInPlace(m, t) => WellTypedMap(rules, MetaKey, m) && WellTypedMap(rules, TagKey, t)
    case _ => true
  }

  /** How a request ended: carried out; refused or failed without effect; interrupted while writing in place; or, for
      an atomic setter, published although it failed, the handle staying with the file that lost its name. */
  datatype Served = Done | Unserved | Torn | Orphaned

  /** What is known of a handle: the metadata it caches, the tags its file yields, unless a torn write left them in
      doubt, whether the last write in place was torn, whether its file is the one under its name, and what the object
      under its name shows, as far as the session tells. */
  datatype View = View(metadata: Map, tags: Option<Map>, torn: bool, current: bool, named: Option<(Map, Map)>)

  predicate Setter(q: Request) {
    q.SetMetadata? || q.SetTags?
  }

  /** The sections an atomic setter publishes: its own and, of the other one, what is known. */
  function NewSections(v: View, q: Request): Option<(Map, Map)>
    requires Setter(q)
  {
    match q
    case SetMetadata(x) => if v.tags.Some? then Some((x, v.tags.value)) else None
    case SetTags(y) => Some((v.metadata, y))
  }

  /** What is known after one request. Either setter, and another update in place, mends a torn handle; a setter brings
      the handle back to its name. */
  function ViewAfterOne(v: View, q: Request, served: Served): View {
    match served
    case Unserved => v
    case Torn => v.(tags := None, torn := true, named := if v.current then None else v.named)
    case Orphaned => if Setter(q) then v.(current := false, named := NewSections(v, q)) else v
    case Done =>
      match q
      case SetMetadata(x) => View(x, v.tags, false, true, NewSections(v, q))
      case SetTags(y) => View(v.metadata, Some(y), false, true, NewSections(v, q))
      case SetInPlace(x, y) => View(x, Some(y), false, v.current, if v.current then Some((x, y)) else v.named)
      case _ => v
  }

  function ViewAfter(v: View, requests: seq<Request>, served: seq<Served>): View
    requires |served| == |requests|
    decreases |requests|
  {
    if requests == [] then v
    else
      var last := |requests| - 1;
      ViewAfterOne(ViewAfter(v, requests[..last], served[..last]), requests[last], served[last])
  }

  /** The handle's file is the one under its name. */
  ghost predicate Current(o: TuxObject)
    requires o.Valid()
    reads o, o.fs`disk, o.fs`stuck, o.fs`published
  {
    Object(o.name) in o.fs.Visible() && o.fs.Visible()[Object(o.name)] == o.file.ino
  }

  /** What opening this name yields: these sections and this content. */
  ghost predicate NameShows(rules: TextRules, s: Snapshot, name: string, m: Map, t: Map, content: seq<byte>) {
    && Object(name) in s.entries && s.entries[Object(name)] in s.files
    && var bytes := s.files[s.entries[Object(name)]].bytes;
       match OpenBytes(rules, bytes)
       case Ok((h, metadata)) =>
         metadata == m && TagBytes(rules, bytes, h) == Result.Ok(t) && StoredContent(bytes, h) == content
       case Err(_) => false
  }

  lemma RewroteShows(rules: TextRules, p: Plan, h: ObjectHeader, ino: nat, s0: Snapshot, s1: Snapshot)
    requires Rewrote(p, h, ino, s0, s1)
    requires WellTypedMap(rules, MetaKey, p.metadata) && WellTypedMap(rules, TagKey, p.tags)
    ensures NameShows(rules, s1, p.name, p.metadata, p.tags, p.content)
    ensures Object(p.name) in s1.entries && s1.entries[Object(p.name)] == ino && ino !in s0.files
  {
    hide OpenBytes, TagBytes, StoredContent, IsObject, WellTypedMap, FinalLayout;
    ObjectDecodes(rules, s1.files[ino].bytes, h, p.metadata, p.tags, p.content);
  }

  lemma NoTraceShows(rules: TextRules, s0: Snapshot, s1: Snapshot, name: string, m: Map, t: Map, content: seq<byte>)
    requires NoTrace(s0, s1) && NameShows(rules, s0, name, m, t, content)
    ensures NameShows(rules, s1, name, m, t, content)
  {
    hide OpenBytes, TagBytes, StoredContent;
  }

  /** The view holds of the handle, whose file still holds this content, and of its name; unless torn, cache and file
      agree. */
  ghost predicate Agrees(o: TuxObject, v: View, content: seq<byte>)
    reads o, o.fs`disk, o.fs`stuck, o.fs`published
  {
    && o.Valid() && o.metadata == v.metadata && StoredContent(o.file.Bytes(), o.header) == content
    && (!v.torn ==> o.Coherent())
    && (v.tags.Some? ==> o.StoredTags() == Result.Ok(v.tags.value))
    && (v.current <==> Current(o))
    && (v.named.Some? ==> NameShows(o.fs.rules, o.fs.Now(), o.name, v.named.value.0, v.named.value.1, content))
  }

  /** What a handle shows at first, whatever it is on. */
  ghost function ViewOf(o: TuxObject): View
    requires o.Valid()
    reads o, o.fs`disk, o.fs`stuck, o.fs`published
  {
    var tags := if o.StoredTags().Ok? then Some(o.StoredTags().value) else None;
    View(o.metadata, tags, !o.Coherent(), Current(o),
         if Current(o) && o.Coherent() && tags.Some? then Some((o.metadata, tags.value)) else None)
  }

  /** An atomic setter that publishes does its own section and keeps the other and the content, on any handle: the tags
      as the file yields them, the metadata as cached. The handle goes along, unless its duplication failed. */
  method ServeSetter(o: TuxObject, q: Request, ghost v: View, ghost content: seq<byte>) returns (served: Served)
    requires Setter(q)
    requires Agrees(o, v, content) && WellTypedRequest(o.fs.rules, q)
    modifies o, o.file`pos, o.fs`disk, o.fs`counter, o.fs`stuck, o.fs`published, o.fs`refusals
    ensures o.Valid() && (o.file == old(o.file) || fresh(o.file)) && !served.Torn?
    ensures Agrees(o, ViewAfterOne(v, q, served), content)
    ensures served.Done? ==> o.Coherent()
    ensures served.Done? || served.Orphaned? ==>
              var t := if q.SetMetadata? then old(o.StoredTags()) else Result.Ok(q.t);
              && t.Ok?
              && NameShows(o.fs.rules, o.fs.Now(), o.name, if q.SetMetadata? then q.m else v.metadata, t.value, content)
    ensures served.Unserved? ==> NoTrace(old(o.fs.Now()), o.fs.Now())
    ensures o.fs.refusals >= old(o.fs.refusals) && (served.Orphaned? ==> o.fs.refusals > old(o.fs.refusals))
    ensures served.Done? && o.fs.refusals == old(o.fs.refusals) ==> OnStableStorage(o.fs.disk, o.name)
    ensures o.fs.refusals == old(o.fs.refusals) ==>
              (served.Done? <==> forall e :: if q.SetMetadata? then !old(o.RefusesMetadata(q.m, e))
                                             else !old(o.Refuses(o.metadata, q.t, e)))
  {
    hide OpenBytes, TagBytes, StoredContent, IsObject, WellTypedMap, MapSize, NoTrace, Rewrote, UpdateRefused,
      RewriteOffset, NameShows;
    OpenIsWellTyped(o.fs.rules, o.file.Bytes());
    ghost var s0, bytes, h0, m := o.fs.Now(), o.file.Bytes(), o.header, if q.SetMetadata? then q.m else o.metadata;
    var r; ghost var h, ino, kept;
    if q.SetMetadata? {
      r, h, ino, kept := o.SetMetadata(q.m);
    } else {
      kept := q.t;
      r, h, ino := o.SetTags(q.t);
    }
    if r.Ok? || r.error == IO(Call.Duplicate) {
      RewroteShows(o.fs.rules, AtomicPlan(o.name, bytes, h0, m, kept), h, ino, s0, o.fs.Now());
    } else {
      if v.named.Some? {
        NoTraceShows(o.fs.rules, s0, o.fs.Now(), o.name, v.named.value.0, v.named.value.1, content);
      }
      SameEntries(s0, o.fs.Now());
    }
    if r.Ok? {
      ObjectDecodes(o.fs.rules, o.file.Bytes(), o.header, o.metadata, kept, content);
    }
    return if r.Ok? then Done else if r.error == IO(Call.Duplicate) then Orphaned else Unserved;
  }

  lemma SameEntries(s0: Snapshot, s1: Snapshot)
    requires NoTrace(s0, s1)
    ensures s0.entries == s1.entries
  {
  }

  /** The other requests. Reads show what is there; an in-place update keeps the content, and mends a torn handle. What
      the name shows changes with the handle's file as long as that is the file under the name. */
  method ServeOther(o: TuxObject, q: Request, ghost v: View, ghost content: seq<byte>) returns (served: Served)
    requires !Setter(q)
    requires Agrees(o, v, content) && WellTypedRequest(o.fs.rules, q)
    modifies o`header, o`metadata, o.file`pos, o.fs`disk, o.fs`refusals
    ensures o.Valid() && (served.Torn? ==> q.SetInPlace?) && !served.Orphaned?
    ensures o.fs.refusals >= old(o.fs.refusals) && (served.Torn? ==> o.fs.refusals > old(o.fs.refusals))
    ensures o.fs.refusals == old(o.fs.refusals) && q.ReadTags? ==> (served.Done? <==> old(o.StoredTags()).Ok?)
    ensures o.fs.refusals == old(o.fs.refusals) && q.SetInPlace? ==>
              (served.Done? <==> forall e :: !Refusal(old(o.header), o.writable, q.m, q.t, e))
    ensures Agrees(o, ViewAfterOne(v, q, served), content)
  {
    hide OpenBytes, TagBytes, StoredContent, WellTypedMap, LegalMap, MapSize, Repartition, Prefix, Enumerates,
      SectionsFit, PlannedInPlace, InPlacePrefix, InPlaceHeader, Refusal, PartOverwritten, Drop, NameShows;
    if q.SetInPlace? {
      var r; ghost var mo, to, prefix;
      ghost var before, h, s0 := o.file.Bytes(), o.header, o.fs.Now();
      r, mo, to, prefix := o.SetSectionsInPlace(q.m, q.t);
      if r.Err? {
        SameContent(before, o.file.Bytes(), h);
      } else if v.current {
        CurrentShows(o, q.t, content);
      }
      if v.named.Some? && (!v.current || o.file.Bytes() == before) {
        ElsewhereShows(o.fs.rules, s0, o.fs.Now(), o.name, o.file.ino, v.named.value.0, v.named.value.1, content);
      }
      return if r.Ok? then Done
             else if r.error in {IO(Call.Write), IO(WriteZero), IO(Call.Flush)} then Torn
             else Unserved;
    } else if q.ReadTags? {
      var r := o.ReadTags();
      assert r.Ok? && v.tags.Some? ==> r.value == v.tags.value;
      return if r.Ok? then Done else Unserved;
    } else {
      var r := o.ReadContentToVec();
      assert r.Ok? && o.header.compression.NoCompression? ==> r.value == content;
      return if r.Ok? then Done else Unserved;
    }
  }

  /** A coherent handle on the file under its name shows what the name shows. */
  lemma CurrentShows(o: TuxObject, t: Map, content: seq<byte>)
    requires o.Valid() && Current(o) && o.Coherent() && o.StoredTags() == Result.Ok(t)
    requires StoredContent(o.file.Bytes(), o.header) == content
    ensures NameShows(o.fs.rules, o.fs.Now(), o.name, o.metadata, t, content)
  {
    hide OpenBytes, TagBytes, StoredContent;
  }

  /** Writing into one file changes what no other file's name shows, nor its own as long as its bytes are the same. */
  lemma ElsewhereShows(rules: TextRules, s0: Snapshot, s1: Snapshot, name: string, ino: nat, m: Map, t: Map,
                       content: seq<byte>)
    requires OnlyFile(s0, s1, ino) && NameShows(rules, s0, name, m, t, content)
    requires Object(name) in s0.entries && s0.entries[Object(name)] == ino ==>
               s1.files[ino].bytes == s0.files[ino].bytes
    ensures NameShows(rules, s1, name, m, t, content)
  {
    hide OpenBytes, TagBytes, StoredContent;
  }

  /** The stored content depends on the bytes from its start on only. */
  lemma SameContent(before: seq<byte>, now: seq<byte>, h: ObjectHeader)
    requires Drop(before, h.contentStart) == Drop(now, h.contentStart)
    ensures StoredContent(before, h) == StoredContent(now, h)
  {
  }

  /** Cache agreement over a whole session, from any handle on any file: after any sequence of atomic setters, in-place
      updates and reads, each of which may fail or be torn, the view follows from the requests and how they ended. The
      content is at every moment what it was at first; and cache and file agree unless they did not at first, or an
      in-place write was torn, and no update was carried out since. */
  method Session(o: TuxObject, requests: seq<Request>) returns (served: seq<Served>)
    requires o.Valid()
    requires forall i :: 0 <= i < |requests| ==> WellTypedRequest(o.fs.rules, requests[i])
    modifies o, o.file`pos, o.fs`disk, o.fs`counter, o.fs`stuck, o.fs`published, o.fs`refusals
    ensures |served| == |requests|
    ensures forall i :: 0 <= i < |requests| && served[i].Torn? ==> requests[i].SetInPlace?
    ensures forall i :: 0 <= i < |requests| && served[i].Orphaned? ==> Setter(requests[i])
    ensures o.fs.refusals == old(o.fs.refusals) ==>
              forall i :: 0 <= i < |requests| ==> !served[i].Torn? && !served[i].Orphaned?
    ensures Agrees(o, ViewAfter(old(ViewOf(o)), requests, served), old(StoredContent(o.file.Bytes(), o.header)))
  {
    hide ViewAfterOne, OpenBytes, TagBytes, StoredContent, WellTypedRequest, NameShows, Agrees, ViewOf, ViewAfter;
    AgreesAtFirst(o);
    served := [];
    NoRequests(ViewOf(o));
    ghost var first, content := ViewOf(o), StoredContent(o.file.Bytes(), o.header);
    ghost var now := first;
    for i := 0 to |requests|
      invariant |served| == i && o.Valid() && (o.file == old(o.file) || fresh(o.file))
      invariant now == ViewAfter(first, requests[..i], served) && Agrees(o, now, content)
      invariant forall j :: 0 <= j < i && served[j].Torn? ==> requests[j].SetInPlace?
      invariant forall j :: 0 <= j < i && served[j].Orphaned? ==> Setter(requests[j])
      invariant o.fs.refusals >= old(o.fs.refusals)
      invariant o.fs.refusals == old(o.fs.refusals) ==>
                  forall j :: 0 <= j < i ==> !served[j].Torn? && !served[j].Orphaned?
    {
      var one;
      if Setter(requests[i]) {
        one := ServeSetter(o, requests[i], now, content);
      } else {
        one := ServeOther(o, requests[i], now, content);
      }
      ViewStep(first, requests, served, i, one);
      now := ViewAfterOne(now, requests[i], one);
      served := served + [one];
    }
    assert requests[..|requests|] == requests;
  }

  lemma AgreesAtFirst(o: TuxObject)
    requires o.Valid()
    ensures Agrees(o, ViewOf(o), StoredContent(o.file.Bytes(), o.header))
  {
    hide OpenBytes, TagBytes, StoredContent, NameShows;
    if Current(o) && o.Coherent() && o.StoredTags().Ok? {
      CurrentShows(o, o.StoredTags().value, StoredContent(o.file.Bytes(), o.header));
    }
  }

  lemma NoRequests(v: View)
    ensures ViewAfter(v, [], []) == v
  {
  }

  lemma ViewStep(v: View, requests: seq<Request>, served: seq<Served>, i: nat, one: Served)
    requires i == |served| < |requests|
    ensures ViewAfter(v, requests[..i + 1], served + [one])
         == ViewAfterOne(ViewAfter(v, requests[..i], served), requests[i], one)
  {
    assert requests[..i + 1][..i] == requests[..i];
    assert (served + [one])[..i] == served;
  }

  /** A session never ends torn when no in-place write was torn, or when some update was carried out after the last. */
  lemma {:induction false} MendedSessions(v: View, requests: seq<Request>, served: seq<Served>)
    requires |served| == |requests|
    ensures ViewAfter(v, requests, served).torn <==>
            || (v.torn && forall i :: 0 <= i < |requests| ==> !Mends(requests[i], served[i]))
            || exists i :: 0 <= i < |requests| && served[i].Torn?
                        && forall j :: i < j < |requests| ==> !Mends(requests[j], served[j])
    decreases |requests|
  {
    if requests != [] {
      var last := |requests| - 1;
      var rs, ss := requests[..last], served[..last];
      MendedSessions(v, rs, ss);
      if served[last].Torn? {
        assert !Mends(requests[last], served[last]);
      } else if ViewAfter(v, rs, ss).torn && !Mends(requests[last], served[last]) {
        if i :| 0 <= i < last && ss[i].Torn? && forall j :: i < j < last ==> !Mends(rs[j], ss[j]) {
          assert served[i].Torn?;
        }
      }
    }
  }

  /** When the handle's file is the one under its name, exactly: it was at first and no setter has left it behind, or
      some setter has brought it back since the last that did. */
  lemma {:induction false} CurrentSessions(v: View, requests: seq<Request>, served: seq<Served>)
    requires |served| == |requests|
    requires forall i :: 0 <= i < |requests| && served[i].Orphaned? ==> Setter(requests[i])
    ensures ViewAfter(v, requests, served).current <==>
            || (v.current && forall i :: 0 <= i < |requests| ==> !served[i].Orphaned?)
            || exists i :: 0 <= i < |requests| && served[i].Done? && Setter(requests[i])
                        && forall j :: i < j < |requests| ==> !served[j].Orphaned?
    decreases |requests|
  {
    if requests != [] {
      var last := |requests| - 1;
      var rs, ss := requests[..last], served[..last];
      CurrentSessions(v, rs, ss);
      if served[last].Orphaned? {
        assert !ViewAfter(v, requests, served).current;
      } else if ViewAfter(v, rs, ss).current && !(served[last].Done? && Setter(requests[last])) {
        if i :| 0 <= i < last && ss[i].Done? && Setter(rs[i]) && forall j :: i < j < last ==> !ss[j].Orphaned? {
          assert served[i].Done? && Setter(requests[i]);
        }
      }
    }
  }

  /** What a setter published without its handle is lost to the next one: that one writes out the sections of the file
      that lost its name. */
  lemma OrphanedChangesAreLost(v: View, x: Map, y: Map)
    requires v.tags.Some?
    ensures var requests := [SetTags(y), SetMetadata(x)];
            && ViewAfter(v, requests[..1], [Orphaned]).named == Some((v.metadata, y))
            && ViewAfter(v, requests, [Orphaned, Done]) == View(x, v.tags, false, true, Some((x, v.tags.value)))
  {
    var requests, served := [SetTags(y), SetMetadata(x)], [Orphaned, Done];
    assert requests[..1][..0] == [] && [Orphaned][..0] == [];
    assert requests[..1] == [SetTags(y)] && served[..1] == [Orphaned];
  }

  /** The request was an update and was carried out. */
  predicate Mends(q: Request, served: Served) {
    served.Done? && (Setter(q) || q.SetInPlace?)
  }

  // ---- adjacent ranges --------------------------------------------------------------------------

  /** A range, read to its end by the blocking reader. */
  method ReadRange(o: TuxObject, offset: nat, length: Option<nat>) returns (r: Result<seq<byte>, FileError>)
    requires o.Valid()
    modifies o.file`pos, o.fs`refusals
    ensures o.Valid() && o.fs.refusals == old(o.fs.refusals) + if r.Err? && BySystem(r.error) then 1 else 0
    ensures match r
            case Ok(all) =>
              && RangeLength(o.header, offset, length).Ok?
              && all == Slice(StoredContent(o.file.Bytes(), o.header), offset, length)
            case Err(e) => BySystem(e) || RangeLength(o.header, offset, length) == Err(e)
  {
    hide Slice, StoredContent, RangeLength, WellTypedMap;
    var reader := o.ContentRangeReader(offset, length);
    if reader.Err? { return Err(reader.error); }
    r := reader.value.ReadToEnd();
  }

  /** Two adjacent ranges, the second one open-ended or not, the first read to its end by the blocking reader and the
      second left to the polled one, are the range they make up. */
  method ReadAdjacent(o: TuxObject, offset: nat, x: nat, y: Option<nat>)
    returns (first: Result<seq<byte>, FileError>, second: Result<ContentSection, FileError>)
    requires o.Valid()
    modifies o.file`pos, o.fs`refusals
    ensures o.Valid() && o.fs.refusals >= old(o.fs.refusals)
    ensures second.Ok? ==> second.value.file == o.file
    ensures first.Ok? && second.Ok? ==>
              && RangeLength(o.header, offset, Longer(x, y)).Ok?
              && first.value + second.value.ToCome()
                 == Slice(StoredContent(o.file.Bytes(), o.header), offset, Longer(x, y))
    ensures o.fs.refusals == old(o.fs.refusals) ==>
              (first.Ok? && second.Ok? <==>
               && RangeLength(o.header, offset, Longer(x, y)).Ok? && offset + x <= o.header.contentLength
               && o.header.contentStart + offset + x <= U64_MAX)
  {
    hide Slice, StoredContent, RangeLength, WellTypedMap, ContentSection.ToCome;
    AdjacentRanges(StoredContent(o.file.Bytes(), o.header), o.header, offset, x, y);
    first := ReadRange(o, offset, Some(x));
    second := o.PolledRangeReader(offset + x, y);
  }

  // ---- many updates of one object ---------------------------------------------------------------

  /** The sizes of the updates that were carried out, in order. */
  ghost function CarriedOut(updates: seq<(Map, Map)>, done: seq<bool>): seq<(nat, nat)>
    requires |done| == |updates|
  {
    if updates == [] then []
    else
      var last := |updates| - 1;
      CarriedOut(updates[..last], done[..last])
      + if done[last] then [(MapSize(updates[last].0), MapSize(updates[last].1))] else []
  }

  /** The metadata of the last update that was carried out. */
  ghost function LastUpdated(first: Map, updates: seq<(Map, Map)>, done: seq<bool>): Map
    requires |done| == |updates|
  {
    if updates == [] then first
    else
      var last := |updates| - 1;
      if done[last] then updates[last].0 else LastUpdated(first, updates[..last], done[..last])
  }

  /** No creep, on the file system: over any sequence of atomic updates, some of which may fail, the content of the
      object is where the history of the carried-out ones puts it. So it never moves back, never moves beyond the
      larger of where it began and the fresh layout of the largest sections, `M` and `T`, and moves at most once per
      513 bytes of that distance. */
  method UpdateMany(o: TuxObject, updates: seq<(Map, Map)>, ghost M: nat, ghost T: nat) returns (done: seq<bool>)
    requires o.Valid()
    requires forall i :: 0 <= i < |updates| ==>
               && WellTypedMap(o.fs.rules, MetaKey, updates[i].0) && WellTypedMap(o.fs.rules, TagKey, updates[i].1)
               && MapSize(updates[i].0) <= M && MapSize(updates[i].1) <= T
    modifies o, o.file`pos, o.fs`disk, o.fs`counter, o.fs`stuck, o.fs`published, o.fs`refusals
    ensures o.Valid() && |done| == |updates| && o.metadata == LastUpdated(old(o.metadata), updates, done)
    ensures o.header.contentStart == OffsetAfter(old(o.header.contentStart), CarriedOut(updates, done))
    ensures old(o.header.contentStart) <= o.header.contentStart <= Max(old(o.header.contentStart), DefaultOffset(M, T))
    ensures Moves(old(o.header.contentStart), CarriedOut(updates, done)) * 513
            <= o.header.contentStart - old(o.header.contentStart)
  {
    hide WellTypedMap, MapSize, DefaultOffset, RewriteOffset, OpenBytes, NoTrace, Rewrote, StoredContent, OffsetAfter,
      Moves, CarriedOut, LastUpdated, UpdateRefused, NamesFrom;
    done := [];
    ghost var start, first := o.header.contentStart, o.metadata;
    NoUpdates(start, first);
    for i := 0 to |updates|
      invariant o.Valid() && (o.file == old(o.file) || fresh(o.file)) && |done| == i
      invariant o.header.contentStart == OffsetAfter(start, CarriedOut(updates[..i], done))
      invariant o.metadata == LastUpdated(first, updates[..i], done)
    {
      var (m, t) := updates[i];
      ghost var bytes, h0, s0 := o.file.Bytes(), o.header, o.fs.Now();
      var r; ghost var h, ino;
      r, h, ino := o.Rewrite(m, t);
      if r.Ok? {
        RewroteOffset(o.name, bytes, h0, m, t, h, ino, s0, o.fs.Now());
      }
      OneMoreUpdate(start, first, updates, done, i, r.Ok?);
      done := done + [r.Ok?];
    }
    assert updates[..|updates|] == updates;
    CarriedOutWithin(updates, done, M, T);
    NoCreep(start, CarriedOut(updates, done), M, T);
  }

  lemma NoUpdates(contentStart: nat, first: Map)
    ensures OffsetAfter(contentStart, CarriedOut([], [])) == contentStart && LastUpdated(first, [], []) == first
  {
  }

  lemma OneMoreUpdate(contentStart: nat, first: Map, updates: seq<(Map, Map)>, done: seq<bool>, i: nat, one: bool)
    requires i == |done| < |updates|
    ensures var before := OffsetAfter(contentStart, CarriedOut(updates[..i], done));
            OffsetAfter(contentStart, CarriedOut(updates[..i + 1], done + [one]))
            == if one then RewriteOffset(before, MapSize(updates[i].0), MapSize(updates[i].1)) else before
    ensures LastUpdated(first, updates[..i + 1], done + [one])
            == if one then updates[i].0 else LastUpdated(first, updates[..i], done)
  {
    hide MapSize, RewriteOffset;
    assert updates[..i + 1][..i] == updates[..i];
    assert (done + [one])[..i] == done;
    var before, after := CarriedOut(updates[..i], done), CarriedOut(updates[..i + 1], done + [one]);
    if one {
      assert after[..|before|] == before;
    } else {
      assert after == before;
    }
  }

  lemma {:induction false} CarriedOutWithin(updates: seq<(Map, Map)>, done: seq<bool>, M: nat, T: nat)
    requires |done| == |updates|
    requires forall i :: 0 <= i < |updates| ==> MapSize(updates[i].0) <= M && MapSize(updates[i].1) <= T
    ensures forall i :: 0 <= i < |CarriedOut(updates, done)| ==>
              CarriedOut(updates, done)[i].0 <= M && CarriedOut(updates, done)[i].1 <= T
    decreases |updates|
  {
    hide MapSize;
    if updates != [] {
      CarriedOutWithin(updates[..|updates| - 1], done[..|updates| - 1], M, T);
    }
  }
}
