/** The classes take steps of the protocol: what the calls of a writer and of an update do to the disk, when they
    succeed and when they fail, are steps the promises over whole runs are made for. */
module ClassSteps {
  import opened Outcome
  import opened Bytes
  import opened Blocks
  import opened Layout
  import opened Objects
  import opened Disks
  import opened FileSystems
  import opened ObjectFiles
  import opened Protocol
  import opened Safety
  import opened Interleavings

  // ---- sequences of steps -----------------------------------------------------------------------

  /** The state follows the other by one step. */
  ghost predicate Took(s: State, step: Step, s': State) {
    Ready(s) && Enabled(s, step) && s' == Next(s, step)
  }

  /** The state follows the other by these steps. */
  ghost predicate Trace(s: State, steps: seq<Step>, s': State)
    decreases |steps|
  {
    if steps == [] then s' == s
    else
      exists before {:trigger Took(before, steps[|steps| - 1], s')} ::
        Trace(s, steps[..|steps| - 1], before) && Took(before, steps[|steps| - 1], s')
  }

  /** The steps rename nothing and crash nowhere. */
  predicate Quiet(steps: seq<Step>) {
    forall i :: 0 <= i < |steps| ==> !steps[i].Publish? && !steps[i].Crash?
  }

  /** Exactly one of the steps is a rename, and none is a crash. */
  ghost predicate RenamesOnce(steps: seq<Step>) {
    exists i :: 0 <= i < |steps| && steps[i].Publish? && Quiet(steps[..i]) && Quiet(steps[i + 1..])
  }

  lemma NoSteps(s: State)
    ensures Trace(s, [], s) && Quiet([])
  {
  }

  lemma OneMore(s: State, steps: seq<Step>, s1: State, step: Step) returns (s2: State)
    requires Trace(s, steps, s1) && Inv(s1) && Enabled(s1, step)
    ensures Ready(s1) && s2 == Next(s1, step) && Took(s1, step, s2)
    ensures Trace(s, steps + [step], s2) && Inv(s2)
    ensures Quiet(steps) && !step.Publish? && !step.Crash? ==> Quiet(steps + [step])
  {
    hide Inv, Enabled, Next, Ready;
    InvIsReady(s1);
    s2 := Next(s1, step);
    StepKeeps(s1, step);
    var more := steps + [step];
    assert more[..|more| - 1] == steps && more[|more| - 1] == step;
    assert Trace(s, more[..|more| - 1], s1) && Took(s1, more[|more| - 1], s2);
  }

  /** What the link is for: steps that rename nothing, as every failed call takes, change what no name holds. */
  lemma {:induction false} QuietStepsKeepNames(s: State, steps: seq<Step>, s': State, name: string)
    requires Inv(s) && Trace(s, steps, s') && Quiet(steps)
    ensures Inv(s') && Held(s'.disk, name) == Held(s.disk, name) && s'.made == s.made
    decreases |steps|
  {
    hide Inv, Enabled, Next, Ready, Held;
    if steps != [] {
      var last := |steps| - 1;
      var before :| Trace(s, steps[..last], before) && Took(before, steps[last], s');
      QuietStepsKeepNames(s, steps[..last], before, name);
      InvIsReady(before);
      StepKeeps(before, steps[last]);
      OnlyPublishingChangesNames(before, steps[last], name);
      MadeByStep(before, steps[last]);
      QuietStepMakesNothing(before, steps[last]);
    }
  }

  lemma QuietStepMakesNothing(s: State, step: Step)
    requires Ready(s) && Enabled(s, step) && !step.Publish?
    ensures Next(s, step).made == s.made
  {
    hide Ready;
  }

  // ---- writers ----------------------------------------------------------------------------------

  /** A writer object that is streaming, as the protocol sees it. */
  ghost function AsWriter(w: ObjectWriter): Writer
    requires w.tempPath.Some?
    reads w
  {
    Writer(w.finalName, w.tempPath.value, w.file.ino, w.layout.contentStart, w.layoutOptions.alignment, w.metadata,
           w.tags, w.content, None, w.sync, Streaming, ObjectHeader(0, NoCompression, 0, 0, 0, 0), [])
  }

  /** The protocol's state has this disk and, among its writers, this one. */
  ghost predicate Follows(s: State, id: nat, w: ObjectWriter)
    reads w, w.fs`disk
  {
    Inv(s) && s.disk == w.fs.disk && w.tempPath.Some? && id in s.writers && s.writers[id] == AsWriter(w)
  }

  /** A streaming writer of the protocol that is to publish this plan. */
  ghost predicate Carries(x: Writer, p: Plan) {
    && x.name == p.name && x.contentStart == p.contentStart && x.alignment == p.options.alignment
    && x.metadata == p.metadata && x.tags == p.tags && x.content == p.content && x.sync == p.sync
    && x.phase == Streaming && Copied(x)
  }

  /** The writer may decide on this header and this prefix. */
  ghost predicate Sealable(x: Writer, h: ObjectHeader, mo: seq<Entry>, to: seq<Entry>, prefix: seq<byte>) {
    CanDecide(x, h, mo, to) && SectionsFit(h.Layout(), mo, to) && prefix == Prefix(h, mo, to)
  }

  lemma CarriedIsSealable(x: Writer, p: Plan, h: ObjectHeader, mo: seq<Entry>, to: seq<Entry>)
    requires Carries(x, p) && FastHeader(p, h) && Encodes(h, p.metadata, p.tags, mo, to)
    ensures SectionsFit(h.Layout(), mo, to) && Sealable(x, h, mo, to, Prefix(h, mo, to))
  {
    hide Repartition, MapSize, LegalMap, Enumerates, Prefix, SectionsFit;
  }

  /** Giving up a temporary entry is a `Vanish`. */
  lemma LetGoIsVanish(s: State, steps: seq<Step>, s1: State, id: nat, d': Disk) returns (removed: bool, s2: State)
    requires Trace(s, steps, s1) && Inv(s1) && id in s1.writers && LetGo(s1.disk, d', s1.writers[id].temp)
    ensures Trace(s, steps + [Vanish(id, removed)], s2) && Inv(s2) && s2.disk == d'
    ensures s2.writers == s1.writers - {id} && s2.durable == s1.durable && s2.readers == s1.readers
    ensures Quiet(steps) ==> Quiet(steps + [Vanish(id, removed)])
  {
    hide Inv, Ready, Trace, Quiet, CrashOf, ContentFrom, CanBegin, CanDecide;
    removed := d' != s1.disk;
    s2 := OneMore(s, steps, s1, Vanish(id, removed));
  }

  lemma DecideAndWrite(s: State, steps: seq<Step>, s1: State, id: nat, h: ObjectHeader, mo: seq<Entry>, to: seq<Entry>,
                       prefix: seq<byte>, n: nat)
    returns (more: seq<Step>, s2: State)
    requires Trace(s, steps, s1) && Inv(s1) && id in s1.writers && Sealable(s1.writers[id], h, mo, to, prefix)
    requires n <= |prefix| && s1.writers[id].ino in s1.disk.files
    ensures Trace(s, more, s2) && Inv(s2) && (Quiet(steps) ==> Quiet(more))
    ensures var x := s1.writers[id];
            s2 == s1.(disk := s1.disk.WriteAt(x.ino, 0, prefix[..n]),
                      writers := s1.writers[id := Decided(x, h, prefix).(phase := Protocol.Phase.Sealing(n))])
  {
    hide Inv, Ready, Trace, Quiet, CrashOf, ContentFrom, CanBegin, Overwrite, Prefix, CanDecide, SectionsFit;
    var mid := OneMore(s, steps, s1, Decide(id, h, mo, to));
    assert prefix[0..0 + n] == prefix[..n];
    s2 := OneMore(s, steps + [Decide(id, h, mo, to)], mid, WritePrefix(id, n));
    more := steps + [Decide(id, h, mo, to)] + [WritePrefix(id, n)];
  }

  lemma FlushStep(s: State, steps: seq<Step>, s1: State, id: nat) returns (s2: State)
    requires Trace(s, steps, s1) && Inv(s1) && Ready(s1) && id in s1.writers
    requires s1.writers[id].phase == Protocol.Phase.Sealing(|s1.writers[id].prefix|)
    ensures Trace(s, steps + [Step.Flush(id)], s2) && Inv(s2) && (Quiet(steps) ==> Quiet(steps + [Step.Flush(id)]))
    ensures var x := s1.writers[id];
            s2 == s1.(disk := if x.sync then s1.disk.Sync(x.ino) else s1.disk,
                      writers := s1.writers[id := x.(phase := Sealed)])
  {
    hide Inv, Trace, Quiet, CrashOf, ContentFrom, CanBegin, CanDecide;
    s2 := OneMore(s, steps, s1, Step.Flush(id));
  }

  lemma PublishFailsStep(s: State, steps: seq<Step>, s1: State, id: nat) returns (s2: State)
    requires Trace(s, steps, s1) && Inv(s1) && id in s1.writers && s1.writers[id].phase == Sealed
    ensures Trace(s, steps + [PublishFails(id)], s2) && Inv(s2) && (Quiet(steps) ==> Quiet(steps + [PublishFails(id)]))
    ensures s2.disk == s1.disk && s2.writers == s1.writers - {id}
    ensures s2.durable == s1.durable && s2.readers == s1.readers
  {
    hide Inv, Ready, Trace, Quiet, CrashOf, ContentFrom, CanBegin, CanDecide;
    s2 := OneMore(s, steps, s1, PublishFails(id));
  }

  lemma WrittenOutSteps(s: State, steps: seq<Step>, s1: State, id: nat, h: ObjectHeader, mo: seq<Entry>, to: seq<Entry>,
                        prefix: seq<byte>)
    returns (more: seq<Step>, s2: State)
    requires Trace(s, steps, s1) && Inv(s1) && id in s1.writers && Sealable(s1.writers[id], h, mo, to, prefix)
    requires s1.writers[id].ino in s1.disk.files
    ensures Trace(s, more, s2) && Inv(s2) && (Quiet(steps) ==> Quiet(more))
    ensures var x := s1.writers[id];
            s2 == s1.(disk := WrittenOut(s1.disk, x.ino, prefix, x.sync),
                      writers := s1.writers[id := Decided(x, h, prefix).(phase := Sealed)])
  {
    hide Inv, Ready, Trace, Quiet, Overwrite, Sealable;
    assert prefix[..|prefix|] == prefix;
    var before, mid := DecideAndWrite(s, steps, s1, id, h, mo, to, prefix, |prefix|);
    InvIsReady(mid);
    s2 := FlushStep(s, before, mid, id);
    more := before + [Step.Flush(id)];
  }

  /** Some or nothing of the prefix was written before the entry was let go. */
  lemma PartFailureSteps(s: State, steps: seq<Step>, s1: State, id: nat, h: ObjectHeader, mo: seq<Entry>,
                         to: seq<Entry>, prefix: seq<byte>, d1: Disk, d': Disk)
    returns (more: seq<Step>, s2: State)
    requires Trace(s, steps, s1) && Inv(s1) && id in s1.writers && Quiet(steps)
    requires Sealable(s1.writers[id], h, mo, to, prefix)
    requires PartOut(s1.disk, d1, s1.writers[id].ino, prefix) && LetGo(d1, d', s1.writers[id].temp)
    ensures Gone(s, more, s1, s2, id) && Quiet(more) && s2.disk == d'
  {
    hide Inv, Ready, Trace, Quiet, Overwrite, Sealable, LetGo;
    var n: nat :| n <= |prefix| && d1 == s1.disk.WriteAt(s1.writers[id].ino, 0, prefix[..n]);
    var before, mid := DecideAndWrite(s, steps, s1, id, h, mo, to, prefix, n);
    var removed;
    removed, s2 := LetGoIsVanish(s, before, mid, id, d');
    more := before + [Vanish(id, removed)];
    assert mid.writers - {id} == s1.writers - {id};
  }

  /** After these steps the writer is gone, and only it. */
  ghost predicate Gone(s: State, steps: seq<Step>, s1: State, s2: State, id: nat) {
    Trace(s, steps, s2) && Inv(s2) && s2.writers == s1.writers - {id} && s2.durable == s1.durable
      && s2.readers == s1.readers
  }

  lemma GoneNow(s: State, steps: seq<Step>, s1: State, s2: State, id: nat)
    requires Trace(s, steps, s2) && Inv(s2) && s2.writers == s1.writers - {id}
    requires s2.durable == s1.durable && s2.readers == s1.readers
    ensures Gone(s, steps, s1, s2, id)
  {
  }

  /** All of the prefix was written, and the rename refused. */
  lemma RenameFailureSteps(s: State, steps: seq<Step>, s1: State, id: nat, h: ObjectHeader, mo: seq<Entry>,
                           to: seq<Entry>, prefix: seq<byte>)
    returns (more: seq<Step>, s2: State)
    requires Trace(s, steps, s1) && Inv(s1) && id in s1.writers && Quiet(steps)
    requires Sealable(s1.writers[id], h, mo, to, prefix) && s1.writers[id].ino in s1.disk.files
    ensures Gone(s, more, s1, s2, id) && Quiet(more)
    ensures s2.disk == WrittenOut(s1.disk, s1.writers[id].ino, prefix, s1.writers[id].sync)
  {
    hide Inv, Ready, Trace, Quiet, Overwrite, Sealable, WrittenOut;
    var before, mid := WrittenOutSteps(s, steps, s1, id, h, mo, to, prefix);
    s2 := PublishFailsStep(s, before, mid, id);
    more := before + [PublishFails(id)];
    assert mid.writers - {id} == s1.writers - {id};
  }

  /** A fast path that fails takes steps that rename nothing, and its writer is gone. */
  lemma FailureSteps(s: State, steps: seq<Step>, s1: State, id: nat, p: Plan, h: ObjectHeader, mo: seq<Entry>,
                     to: seq<Entry>, d': Disk, e: FileError)
    returns (more: seq<Step>, s2: State)
    requires Trace(s, steps, s1) && Inv(s1) && id in s1.writers && Carries(s1.writers[id], p) && Quiet(steps)
    requires FastHeader(p, h)
    requires var x := s1.writers[id];
             WentWrong(s1.disk, d', x.ino, h, p.metadata, p.tags, mo, to, x.temp, x.sync, e)
    ensures Gone(s, more, s1, s2, id) && Quiet(more) && s2.disk == d'
  {
    var x := s1.writers[id];
    hide Inv, Ready, Trace, Quiet, Overwrite, Prefix, Carries, LetGo, PartOut, Sealable, WrittenOut, FastHeader,
      Encodes, Gone, SectionsFit;
    if LetGo(s1.disk, d', x.temp) {
      var removed;
      removed, s2 := LetGoIsVanish(s, steps, s1, id, d');
      more := steps + [Vanish(id, removed)];
      GoneNow(s, more, s1, s2, id);
    } else {
      CarriedIsSealable(x, p, h, mo, to);
      var prefix := Prefix(h, mo, to);
      if exists d1 :: PartOut(s1.disk, d1, x.ino, prefix) && LetGo(d1, d', x.temp) {
        var d1 :| PartOut(s1.disk, d1, x.ino, prefix) && LetGo(d1, d', x.temp);
        more, s2 := PartFailureSteps(s, steps, s1, id, h, mo, to, prefix, d1, d');
      } else {
        more, s2 := RenameFailureSteps(s, steps, s1, id, h, mo, to, prefix);
      }
    }
  }

  /** A fast path that succeeds takes one rename, which makes the planned object, and perhaps a flush of the
      directory. */
  lemma SuccessSteps(s: State, steps: seq<Step>, s1: State, id: nat, p: Plan, h: ObjectHeader, mo: seq<Entry>,
                     to: seq<Entry>, d': Disk)
    returns (more: seq<Step>, s2: State)
    requires Trace(s, steps, s1) && Inv(s1) && id in s1.writers && Carries(s1.writers[id], p) && Quiet(steps)
    requires FastHeader(p, h) && Encodes(h, p.metadata, p.tags, mo, to)
    requires var x := s1.writers[id]; WentOut(s1.disk, d', x.ino, h, mo, to, x.temp, x.name, x.sync)
    ensures Gone(s, more, s1, s2, id) && RenamesOnce(more) && s2.disk == d'
    ensures s2.made == s1.made + {(p.name, Prefix(h, mo, to) + p.content)}
  {
    var x, prefix := s1.writers[id], Prefix(h, mo, to);
    CarriedIsSealable(x, p, h, mo, to);
    hide Inv, Ready, Trace, Quiet, Overwrite, Prefix, WrittenOut, Sealable, RenamesOnce, FastHeader, Encodes,
      SectionsFit, Renamed, Gone;
    more, s2 := RenameSteps(s, steps, s1, id, h, mo, to, prefix, d');
  }

  lemma RenameSteps(s: State, steps: seq<Step>, s1: State, id: nat, h: ObjectHeader, mo: seq<Entry>, to: seq<Entry>,
                    prefix: seq<byte>, d': Disk)
    returns (more: seq<Step>, s2: State)
    requires Trace(s, steps, s1) && Inv(s1) && id in s1.writers && Quiet(steps)
    requires Sealable(s1.writers[id], h, mo, to, prefix) && s1.writers[id].ino in s1.disk.files
    requires var x := s1.writers[id]; Renamed(WrittenOut(s1.disk, x.ino, prefix, x.sync), d', x.temp, x.name, x.sync)
    ensures Gone(s, more, s1, s2, id) && RenamesOnce(more) && s2.disk == d'
    ensures s2.made == s1.made + {(s1.writers[id].name, prefix + s1.writers[id].content)}
  {
    hide Inv, Ready, Trace, Quiet, Overwrite, Sealable, WrittenOut, RenamesOnce, Renamed;
    var before, mid := WrittenOutSteps(s, steps, s1, id, h, mo, to, prefix);
    assert mid.writers - {id} == s1.writers - {id};
    var flushed;
    flushed, more, s2 := PublishStep(s, before, mid, id, d');
  }

  lemma PublishStep(s: State, steps: seq<Step>, s1: State, id: nat, d': Disk)
    returns (flushed: bool, more: seq<Step>, s2: State)
    requires Trace(s, steps, s1) && Inv(s1) && id in s1.writers && s1.writers[id].phase == Sealed && Quiet(steps)
    requires var x := s1.writers[id]; Renamed(s1.disk, d', x.temp, x.name, x.sync)
    ensures Trace(s, more, s2) && Inv(s2) && RenamesOnce(more) && s2.disk == d'
    ensures s2.writers == s1.writers - {id} && s2.durable == s1.durable && s2.readers == s1.readers
    ensures s2.made == s1.made + {(s1.writers[id].name, s1.writers[id].Image())}
  {
    hide Inv, Ready, Trace, CrashOf, ContentFrom, CanBegin, CanDecide;
    var mid := OneMore(s, steps, s1, Publish(id));
    more, s2, flushed := steps + [Publish(id)], mid, d' != mid.disk;
    assert more[..|steps|] == steps && more[|steps|..] == [Publish(id)] && more[|steps| + 1..] == [];
    if flushed {
      s2 := OneMore(s, more, mid, Step.SyncDirectory);
      more := more + [Step.SyncDirectory];
      assert more[..|steps|] == steps && more[|steps| + 1..] == [Step.SyncDirectory];
    }
    assert more[|steps|].Publish?;
  }

  // ---- whole calls ------------------------------------------------------------------------------

  /** One complete object with the planned sections and content was added to those made under the planned name. */
  ghost predicate Made(p: Plan, s: State, s': State) {
    exists h, image :: IsObject(image, h, p.metadata, p.tags, p.content) && s'.made == s.made + {(p.name, image)}
  }

  /** What the steps of an ending amount to: one rename that made the planned object, or none. */
  ghost predicate Amounts(p: Plan, s: State, steps: seq<Step>, s': State, published: bool) {
    if published then RenamesOnce(steps) && Made(p, s, s') else Quiet(steps) && s'.made == s.made
  }

  lemma PublishedIsMade(p: Plan, s: State, s': State, h: ObjectHeader, mo: seq<Entry>, to: seq<Entry>)
    requires FastHeader(p, h) && Encodes(h, p.metadata, p.tags, mo, to)
    requires s'.made == s.made + {(p.name, Prefix(h, mo, to) + p.content)}
    ensures Made(p, s, s')
  {
    hide Prefix, LegalMap, Enumerates, SectionsFit, PlannedFit;
    var image := Prefix(h, mo, to) + p.content;
    assert IsImage(image, h, p.metadata, p.tags, p.content, mo, to);
    assert IsObject(image, h, p.metadata, p.tags, p.content);
  }

  lemma FastEndSteps(s: State, steps: seq<Step>, s1: State, id: nat, p: Plan, d': Disk, published: bool)
    returns (more: seq<Step>, s2: State)
    requires Inv(s) && Trace(s, steps, s1) && Inv(s1) && id in s1.writers && Carries(s1.writers[id], p) && Quiet(steps)
    requires s1.made == s.made
    requires EndedFast(p, s1.disk, d', s1.writers[id].temp, s1.writers[id].ino, published)
    ensures Gone(s, more, s1, s2, id) && Amounts(p, s, more, s2, published) && s2.disk == d'
  {
    var x := s1.writers[id];
    hide Inv, Ready, Trace, Quiet, Carries, LetGo, FastHeader, Encodes, WentOut, WentWrong, Gone, RenamesOnce, Made,
      Prefix;
    if !published && LetGo(s1.disk, d', x.temp) {
      var removed;
      removed, s2 := LetGoIsVanish(s, steps, s1, id, d');
      more := steps + [Vanish(id, removed)];
      GoneNow(s, more, s1, s2, id);
    } else {
      var h: ObjectHeader, mo: seq<Entry>, to: seq<Entry>, e: FileError :|
        FastHeader(p, h) && EndedWith(p, s1.disk, d', x.temp, x.ino, published, h, mo, to, e);
      CarriesTheSame(x, p);
      if published {
        more, s2 := SuccessSteps(s, steps, s1, id, p, h, mo, to, d');
        PublishedIsMade(p, s, s2, h, mo, to);
      } else {
        more, s2 := FailureSteps(s, steps, s1, id, p, h, mo, to, d', e);
      }
    }
    if !published {
      QuietMakesNothing(s, more, s2, s1, id);
    }
  }

  lemma CarriesTheSame(x: Writer, p: Plan)
    requires Carries(x, p)
    ensures x.name == p.name && x.sync == p.sync && x.content == p.content
  {
  }

  lemma QuietMakesNothing(s: State, steps: seq<Step>, s2: State, s1: State, id: nat)
    requires Inv(s) && Gone(s, steps, s1, s2, id) && Quiet(steps)
    ensures s2.made == s.made
  {
    hide Inv, Trace, Quiet, Held;
    QuietStepsKeepNames(s, steps, s2, "");
  }

  /** A writer that has just begun. */
  ghost function Beginner(p: Plan, temp: Path, ino: nat, contentStart: nat, copies: Option<seq<byte>>): Writer {
    Writer(p.name, temp, ino, contentStart, p.options.alignment, p.metadata, p.tags, [], copies, p.sync, Streaming,
           ObjectHeader(0, NoCompression, 0, 0, 0, 0), [])
  }

  lemma BeginSteps(s: State, steps: seq<Step>, s1: State, id: nat, p: Plan, temp: Path, contentStart: nat,
                   source: Source, copies: Option<seq<byte>>)
    returns (s2: State)
    requires Trace(s, steps, s1) && Inv(s1) && id !in s1.writers && temp.Temp? && temp !in s1.disk.dir
    requires HEADER_SIZE <= contentStart <= U32_MAX && ContentFrom(s1, source, copies)
             && (p.name in s1.durable ==> p.sync)
    ensures var x := Beginner(p, temp, s1.disk.next, contentStart, copies); var step := Begin(id, x, source);
            && Trace(s, steps + [step], s2) && Inv(s2) && (Quiet(steps) ==> Quiet(steps + [step]))
            && s2 == s1.(disk := s1.disk.CreateNew(temp), writers := s1.writers[id := x])
  {
    hide Inv, Ready, Trace, Quiet, CrashOf, ContentFrom, CanDecide;
    s2 := OneMore(s, steps, s1, Begin(id, Beginner(p, temp, s1.disk.next, contentStart, copies), source));
  }

  lemma AcceptSteps(s: State, steps: seq<Step>, s1: State, id: nat, data: seq<byte>) returns (s2: State)
    requires Trace(s, steps, s1) && Inv(s1) && Ready(s1) && id in s1.writers && s1.writers[id].phase == Streaming
    requires s1.writers[id].copies.Some? ==> s1.writers[id].content + data <= s1.writers[id].copies.value
    ensures Trace(s, steps + [Accept(id, data)], s2) && Inv(s2) && (Quiet(steps) ==> Quiet(steps + [Accept(id, data)]))
    ensures var x := s1.writers[id];
            s2 == s1.(disk := s1.disk.WriteAt(x.ino, x.contentStart + |x.content|, data),
                      writers := s1.writers[id := Grown(x, data)])
  {
    hide Inv, Trace, Quiet, CrashOf, ContentFrom, CanBegin, CanDecide;
    s2 := OneMore(s, steps, s1, Accept(id, data));
  }

  /** A file that was created and filled is a writer that began and accepted. */
  lemma FilledSteps(s: State, steps: seq<Step>, s1: State, id: nat, p: Plan, d1: Disk, temp: Path, contentStart: nat,
                    source: Source, copies: Option<seq<byte>>, c: seq<byte>)
    returns (more: seq<Step>, s2: State)
    requires Trace(s, steps, s1) && Inv(s1) && id !in s1.writers && Quiet(steps)
    requires HEADER_SIZE <= contentStart <= U32_MAX && ContentFrom(s1, source, copies)
             && (p.name in s1.durable ==> p.sync)
    requires Filled(s1.disk, d1, temp, p.name, contentStart, c) && (copies.Some? ==> c <= copies.value)
    ensures Trace(s, more, s2) && Inv(s2) && Quiet(more)
    ensures more == steps + [Begin(id, Beginner(p, temp, s1.disk.next, contentStart, copies), source)] + [Accept(id, c)]
    ensures s2 == s1.(disk := d1,
                      writers := s1.writers[id := Beginner(p, temp, s1.disk.next, contentStart, copies).(content := c)])
  {
    hide Inv, Ready, Trace, Quiet, ContentFrom, Overwrite;
    var x := Beginner(p, temp, s1.disk.next, contentStart, copies);
    var mid := BeginSteps(s, steps, s1, id, p, temp, contentStart, source, copies);
    InvIsReady(mid);
    assert [] + c == c && c[|x.content|..] == c;
    s2 := AcceptSteps(s, steps + [Begin(id, x, source)], mid, id, c);
    more := steps + [Begin(id, x, source)] + [Accept(id, c)];
  }

  /** A second writer that was not created, or given up while its content was copied, leaves only such steps. */
  lemma NotFilledSteps(s: State, steps: seq<Step>, s1: State, id: nat, p: Plan, source: Source, c: seq<byte>, d': Disk)
    returns (more: seq<Step>, s2: State)
    requires Trace(s, steps, s1) && Inv(s1) && id !in s1.writers && Quiet(steps)
    requires ContentFrom(s1, source, Some(c)) && (p.name in s1.durable ==> p.sync)
    requires NotFilled(s1.disk, d', p.name, c)
    ensures Gone(s, more, s1, s2, id) && Quiet(more) && s2.disk == d'
  {
    hide Inv, Ready, Trace, Quiet, ContentFrom, LetGo, Filled, Gone;
    assert s1.writers - {id} == s1.writers;
    if d' == s1.disk {
      more, s2 := steps, s1;
      GoneNow(s, more, s1, s2, id);
    } else if temp: Path :| temp.Temp? && temp !in s1.disk.dir && LetGo(s1.disk.CreateNew(temp), d', temp) {
      var mid := BeginSteps(s, steps, s1, id, p, temp, HEADER_SIZE, source, Some(c));
      var before := steps + [Begin(id, Beginner(p, temp, s1.disk.next, HEADER_SIZE, Some(c)), source)];
      more, s2 := GivenUpSteps(s, before, mid, s1, id, d');
    } else {
      var d1: Disk, temp: Path, contentStart: nat, part: seq<byte> :|
        HEADER_SIZE <= contentStart <= U32_MAX && part <= c
        && Filled(s1.disk, d1, temp, p.name, contentStart, part) && LetGo(d1, d', temp);
      var before, mid := FilledSteps(s, steps, s1, id, p, d1, temp, contentStart, source, Some(c), part);
      more, s2 := GivenUpSteps(s, before, mid, s1, id, d');
    }
  }

  lemma GivenUpSteps(s: State, steps: seq<Step>, mid: State, s1: State, id: nat, d': Disk)
    returns (more: seq<Step>, s2: State)
    requires Trace(s, steps, mid) && Inv(mid) && Quiet(steps) && id !in s1.writers && id in mid.writers
    requires mid.writers == s1.writers[id := mid.writers[id]] && mid.durable == s1.durable && mid.readers == s1.readers
    requires LetGo(mid.disk, d', mid.writers[id].temp)
    ensures Gone(s, more, s1, s2, id) && Quiet(more) && s2.disk == d'
  {
    hide Inv, Trace, Quiet, LetGo;
    var removed;
    removed, s2 := LetGoIsVanish(s, steps, mid, id, d');
    more := steps + [Vanish(id, removed)];
    assert mid.writers - {id} == s1.writers - {id};
  }

  lemma VanishAfterwards(p: Plan, s: State, steps: seq<Step>, s1: State, id: nat, d': Disk, published: bool)
    returns (more: seq<Step>, s2: State)
    requires Inv(s) && Trace(s, steps, s1) && Inv(s1) && id in s1.writers && Amounts(p, s, steps, s1, published)
    requires LetGo(s1.disk, d', s1.writers[id].temp)
    ensures Gone(s, more, s1, s2, id) && Amounts(p, s, more, s2, published) && s2.disk == d'
  {
    hide Inv, Trace, LetGo, Quiet, Made;
    var removed;
    removed, s2 := LetGoIsVanish(s, steps, s1, id, d');
    more := steps + [Vanish(id, removed)];
    VanishMakesNothing(s, steps, s1, id, removed, s2);
    if published {
      StillRenamesOnce(steps, Vanish(id, removed));
      assert Made(p, s, s2) by { StillMade(p, s, s1, s2); }
    }
  }

  lemma StillMade(p: Plan, s: State, s1: State, s2: State)
    requires Made(p, s, s1) && s2.made == s1.made
    ensures Made(p, s, s2)
  {
    hide IsObject;
  }

  lemma StillRenamesOnce(steps: seq<Step>, step: Step)
    requires RenamesOnce(steps) && !step.Publish? && !step.Crash?
    ensures RenamesOnce(steps + [step])
  {
    var i :| 0 <= i < |steps| && steps[i].Publish? && Quiet(steps[..i]) && Quiet(steps[i + 1..]);
    var more := steps + [step];
    assert more[..i] == steps[..i] && more[i + 1..] == steps[i + 1..] + [step] && more[i] == steps[i];
  }

  lemma VanishMakesNothing(s: State, steps: seq<Step>, s1: State, id: nat, removed: bool, s2: State)
    requires Trace(s, steps, s1) && Inv(s1) && Trace(s, steps + [Vanish(id, removed)], s2)
    requires id in s1.writers
    ensures s2.made == s1.made
  {
    hide Inv, Ready, CrashOf, ContentFrom, CanBegin, CanDecide;
    var more := steps + [Vanish(id, removed)];
    assert more[..|more| - 1] == steps && more[|more| - 1] == Vanish(id, removed);
    var before :| Trace(s, more[..|more| - 1], before) && Took(before, more[|more| - 1], s2);
    TracesAgree(s, steps, s1, before);
  }

  lemma {:induction false} TracesAgree(s: State, steps: seq<Step>, x: State, y: State)
    requires Trace(s, steps, x) && Trace(s, steps, y)
    ensures x == y
    decreases |steps|
  {
    hide Enabled, Next, Ready;
    if steps != [] {
      var last := |steps| - 1;
      var x' :| Trace(s, steps[..last], x') && Took(x', steps[last], x);
      var y' :| Trace(s, steps[..last], y') && Took(y', steps[last], y);
      TracesAgree(s, steps[..last], x', y');
    }
  }

  /** The slow path: a second writer copies the content of the first and goes the fast way, and the first vanishes. */
  lemma SlowEndSteps(s: State, id: nat, id2: nat, p: Plan, d': Disk, published: bool)
    returns (more: seq<Step>, s2: State)
    requires Inv(s) && id in s.writers && id2 !in s.writers && Carries(s.writers[id], p)
    requires p.name in s.durable ==> p.sync
    requires EndedSlow(p, s.disk, d', s.writers[id].temp, published)
    ensures Gone(s, more, s, s2, id) && Amounts(p, s, more, s2, published) && s2.disk == d'
  {
    hide Inv, Ready, Trace, Quiet, LetGo, NotFilled, Filled, EndedFast, RenamesOnce, Made;
    NoSteps(s);
    var temp := s.writers[id].temp;
    assert ContentFrom(s, Rewriting(id), Some(p.content));
    if !published && exists d1 :: NotFilled(s.disk, d1, p.name, p.content) && LetGo(d1, d', temp) {
      var d1 :| NotFilled(s.disk, d1, p.name, p.content) && LetGo(d1, d', temp);
      var before, mid := NotFilledSteps(s, [], s, id2, p, Rewriting(id), p.content, d1);
      assert s.writers - {id2} == s.writers;
      QuietMakesNothing(s, before, mid, s, id2);
      more, s2 := VanishAfterwards(p, s, before, mid, id, d', published);
    } else {
      var d1: Disk, d2: Disk, temp2: Path, contentStart: nat :|
        Refilled(p, s.disk, d1, d2, d', temp, temp2, contentStart, published);
      more, s2 := RefilledSteps(s, id, id2, p, d1, d2, d', temp2, contentStart, published);
    }
  }

  lemma RefilledSteps(s: State, id: nat, id2: nat, p: Plan, d1: Disk, d2: Disk, d': Disk, temp2: Path,
                      contentStart: nat, published: bool)
    returns (more: seq<Step>, s2: State)
    requires Inv(s) && id in s.writers && id2 !in s.writers && Carries(s.writers[id], p)
    requires p.name in s.durable ==> p.sync
    requires Refilled(p, s.disk, d1, d2, d', s.writers[id].temp, temp2, contentStart, published)
    ensures Gone(s, more, s, s2, id) && Amounts(p, s, more, s2, published) && s2.disk == d'
  {
    hide Inv, Ready, Trace, Quiet, LetGo, Filled, EndedFast, RenamesOnce, Made;
    NoSteps(s);
    var again := p.(options := RewriteOptions(p.options), contentStart := contentStart);
    var filled,
      s1 := FilledSteps(s, [], s, id2, again, d1, temp2, contentStart, Rewriting(id), Some(p.content), p.content);
    assert Carries(s1.writers[id2], again);
    var ended, s3 := FastEndSteps(s, filled, s1, id2, again, d2, published);
    assert s1.writers - {id2} == s.writers;
    SamePlanAmounts(again, p, s, ended, s3, published);
    more, s2 := VanishAfterwards(p, s, ended, s3, id, d', published);
  }

  lemma SamePlanAmounts(p: Plan, p': Plan, s: State, steps: seq<Step>, s': State, published: bool)
    requires Amounts(p, s, steps, s', published)
    requires p'.name == p.name && p'.metadata == p.metadata && p'.tags == p.tags && p'.content == p.content
    ensures Amounts(p', s, steps, s', published)
  {
    hide RenamesOnce, Quiet, IsObject;
  }

  // ---- the methods ------------------------------------------------------------------------------

  lemma FollowersCarry(s: State, id: nat, w: ObjectWriter)
    requires Follows(s, id, w)
    ensures Carries(s.writers[id], w.Planned()) && (w.finalName in s.durable ==> w.sync)
  {
    hide Stage, Complete, Owns, NameOk, ReaderOk, Apart;
    assert WriterOk(s, id);
  }

  /** `create` is a `Begin`; one that fails is no step, or a `Begin` and a `Vanish`. */
  method CreateIsBegin(fs: FileSystem, name: string, options: CreateOptions, ghost s: State, ghost id: nat)
    returns (r: Result<ObjectWriter, FileError>, ghost steps: seq<Step>, ghost s': State)
    requires fs.Valid() && WellTypedOptions(fs.rules, options)
    requires Inv(s) && s.disk == fs.disk && id !in s.writers && (name in s.durable ==> options.sync)
    modifies fs`disk, fs`counter, fs`stuck, fs`refusals
    ensures fs.Valid() && Trace(s, steps, s') && Inv(s') && Quiet(steps) && s'.disk == fs.disk
    ensures match r
            case Ok(w) =>
              && fresh(w) && w.Valid() && w.fs == fs && Follows(s', id, w)
              && steps == [Begin(id, AsWriter(w), Caller)]
            case Err(_) => s'.writers == s.writers
  {
    hide WellTypedMap, Inv, MapSize, Compute, Trace, Quiet, LetGo;
    NoSteps(s);
    ghost var none: seq<Step> := [];
    r := ObjectWriter.Create(fs, name, options);
    match r {
      case Ok(w) =>
        s' := BeginSteps(s, none, s, id, w.Planned(), w.tempPath.value, w.layout.contentStart, Caller, None);
        steps := none + [Begin(id, AsWriter(w), Caller)];
      case Err(_) =>
        steps, s' := NotCreatedSteps(s, id, name, options.sync, fs.disk);
    }
  }

  lemma NotCreatedSteps(s: State, id: nat, name: string, sync: bool, d': Disk) returns (steps: seq<Step>, s': State)
    requires Inv(s) && id !in s.writers && (name in s.durable ==> sync) && NotCreated(s.disk, d', name)
    ensures Gone(s, steps, s, s', id) && Quiet(steps) && s'.disk == d' && s'.writers == s.writers
  {
    hide Inv, Trace, Quiet, LetGo, ContentFrom;
    var p := Plan(name, 0, DEFAULT_OPTIONS, NoCompression, map[], map[], [], sync);
    NoSteps(s);
    assert s.writers - {id} == s.writers;
    if d' == s.disk {
      steps, s' := [], s;
    } else {
      var temp: Path :| temp.Temp? && temp !in s.disk.dir && LetGo(s.disk.CreateNew(temp), d', temp);
      assert ContentFrom(s, Caller, None) by { CallersCopyNothing(s); }
      var mid := BeginSteps(s, [], s, id, p, temp, HEADER_SIZE, Caller, None);
      steps,
        s' := GivenUpSteps(s, [] + [Begin(id, Beginner(p, temp, s.disk.next, HEADER_SIZE, None), Caller)], mid, s, id,
                           d');
    }
  }

  lemma CallersCopyNothing(s: State)
    ensures ContentFrom(s, Caller, None)
  {
  }

  /** `write` is an `Accept` of the bytes it took. */
  method WriteIsAccept(w: ObjectWriter, data: seq<byte>, ghost s: State, ghost id: nat)
    returns (r: Result<nat, FileError>, ghost s': State)
    requires w.Valid() && Follows(s, id, w)
    modifies w`contentLength, w`content, w.file`pos, w.fs`disk, w.fs`refusals
    ensures w.Valid() && Follows(s', id, w)
    ensures match r
            case Ok(n) => n <= |data| && Took(s, Accept(id, data[..n]), s')
            case Err(_) => s' == s
  {
    hide WellTypedMap, Inv, Staged, Overwrite;
    s' := s;
    r := w.Write(data);
    if r.Ok? {
      InvIsReady(s);
      s' := Next(s, Accept(id, data[..r.value]));
      StepKeeps(s, Accept(id, data[..r.value]));
    }
  }

  /** Changing the sections is an `Edit`. */
  method SetMetadataIsEdit(w: ObjectWriter, m: Map, ghost s: State, ghost id: nat) returns (ghost s': State)
    requires w.Valid() && Follows(s, id, w) && WellTypedMap(w.fs.rules, MetaKey, m)
    modifies w`metadata
    ensures w.Valid() && Follows(s', id, w) && Took(s, Edit(id, m, w.tags), s')
  {
    hide WellTypedMap, Inv, Staged, Overwrite;
    InvIsReady(s);
    w.SetMetadata(m);
    s' := Next(s, Edit(id, m, w.tags));
    StepKeeps(s, Edit(id, m, w.tags));
  }

  method SetTagsIsEdit(w: ObjectWriter, t: Map, ghost s: State, ghost id: nat) returns (ghost s': State)
    requires w.Valid() && Follows(s, id, w) && WellTypedMap(w.fs.rules, TagKey, t)
    modifies w`tags
    ensures w.Valid() && Follows(s', id, w) && Took(s, Edit(id, w.metadata, t), s')
  {
    hide WellTypedMap, Inv, Staged, Overwrite;
    InvIsReady(s);
    w.SetTags(t);
    s' := Next(s, Edit(id, w.metadata, t));
    StepKeeps(s, Edit(id, w.metadata, t));
  }

  /** Dropping a writer is a `Vanish`, with or without its temporary entry. */
  method DropIsVanish(w: ObjectWriter, ghost s: State, ghost id: nat) returns (ghost removed: bool, ghost s': State)
    requires w.Valid() && Follows(s, id, w)
    modifies w`tempPath, w.fs`disk, w.fs`stuck, w.fs`refusals
    ensures w.fs.Valid() && Inv(s') && s'.disk == w.fs.disk && Trace(s, [Vanish(id, removed)], s')
  {
    hide WellTypedMap, Inv, Staged, Overwrite, Trace, LetGo;
    NoSteps(s);
    w.Drop();
    removed, s' := LetGoIsVanish(s, [], s, id, w.fs.disk);
    assert [] + [Vanish(id, removed)] == [Vanish(id, removed)];
  }

  /** So is aborting one, which tells whether the entry is gone. */
  method AbortIsVanish(w: ObjectWriter, ghost s: State, ghost id: nat)
    returns (r: Result<(), FileError>, ghost removed: bool, ghost s': State)
    requires w.Valid() && Follows(s, id, w)
    modifies w`tempPath, w.fs`disk, w.fs`stuck, w.fs`refusals
    ensures w.fs.Valid() && Inv(s') && s'.disk == w.fs.disk && Trace(s, [Vanish(id, removed)], s')
    ensures r.Ok? <==> old(w.tempPath.value) !in s'.disk.dir
  {
    hide WellTypedMap, Inv, Staged, Overwrite, Trace;
    NoSteps(s);
    ghost var temp := w.tempPath.value;
    r := w.Abort();
    removed, s' := LetGoIsVanish(s, [], s, id, w.fs.disk);
    assert [] + [Vanish(id, removed)] == [Vanish(id, removed)];
  }

  /** `finish`, on both paths and with every outcome, is steps of the protocol: with exactly one rename, which makes the
      planned object, when it publishes; and with none when it does not. */
  method FinishIsARun(w: ObjectWriter, ghost s: State, ghost id: nat, ghost id2: nat)
    returns (r: Result<TuxObject, FileError>, ghost steps: seq<Step>, ghost s': State)
    requires w.Valid() && Follows(s, id, w) && id2 !in s.writers
    modifies w, w.file`pos, w.fs`disk, w.fs`counter, w.fs`stuck, w.fs`published, w.fs`refusals
    ensures w.fs.Valid() && Gone(s, steps, s, s', id) && s'.disk == w.fs.disk
    ensures Amounts(old(w.Planned()), s, steps, s', r.Ok? || r.error == IO(Call.Duplicate))
  {
    hide WellTypedMap, Inv, Staged, Overwrite, Trace, Quiet, EndedFast, EndedSlow, Published, Abandoned, NeedsRewrite,
      Carries, Gone, Amounts;
    FollowersCarry(s, id, w);
    NoSteps(s);
    ghost var p, temp, slow := w.Planned(), w.tempPath.value, NeedsRewrite(w.Planned());
    ghost var h, ino;
    r, h, ino := w.Finish();
    ghost var published := r.Ok? || r.error == IO(Call.Duplicate);
    if slow {
      steps, s' := SlowEndSteps(s, id, id2, p, w.fs.disk, published);
    } else {
      steps, s' := FastEndSteps(s, [], s, id, p, w.fs.disk, published);
    }
  }

  /** An atomic update begins a writer that copies the stored content of the object its handle has open, accepts all
      of it, and goes the fast way to the end; or it is given up, and leaves only such steps. */
  method UpdateIsARun(o: TuxObject, m: Map, t: Map, ghost s: State, ghost reader: nat, ghost id: nat)
    returns (r: Result<(), FileError>, ghost begun: seq<Step>, ghost s1: State, ghost steps: seq<Step>, ghost s': State)
    requires o.Valid() && WellTypedMap(o.fs.rules, MetaKey, m) && WellTypedMap(o.fs.rules, TagKey, t)
    requires Inv(s) && s.disk == o.fs.disk && id !in s.writers
    requires reader in s.readers && s.readers[reader] == Reader(o.file.ino, o.file.Bytes())
    modifies o, o.file`pos, o.fs`disk, o.fs`counter, o.fs`stuck, o.fs`published, o.fs`refusals
    ensures o.Valid() && s'.disk == o.fs.disk && s'.writers == s.writers && Inv(s')
    ensures Trace(s, begun, s1) && Quiet(begun) && s1.made == s.made && Trace(s1, steps, s')
    ensures Amounts(old(o.Replacement(m, t)), s1, steps, s', r.Ok? || r.error == IO(Call.Duplicate))
    ensures r.Ok? || r.error == IO(Call.Duplicate) ==>
              && |begun| == 2 && begun[0].Begin? && begun[0].source == Updating(reader, old(o.header))
              && begun[1] == Accept(id, old(StoredContent(o.file.Bytes(), o.header)))
  {
    hide WellTypedMap, Inv, Trace, Quiet, Updated, Amounts, StoredContent, NoTrace, Rewrote, OpenBytes, RewriteOffset,
      MapSize;
    ghost var p := o.Replacement(m, t);
    ghost var source := Updating(reader, o.header);
    ghost var h, ino;
    r, h, ino := o.Rewrite(m, t);
    begun, s1, steps, s' := UpdatedSteps(s, id, p, source, o.fs.disk, r.Ok? || r.error == IO(Call.Duplicate));
  }

  lemma UpdatedSteps(s: State, id: nat, p: Plan, source: Source, d': Disk, published: bool)
    returns (begun: seq<Step>, s1: State, steps: seq<Step>, s': State)
    requires Inv(s) && id !in s.writers && p.sync && ContentFrom(s, source, Some(p.content))
    requires Updated(p, s.disk, d', published)
    ensures Inv(s') && s'.writers == s.writers && s'.disk == d'
    ensures Trace(s, begun, s1) && Quiet(begun) && s1.made == s.made && Trace(s1, steps, s')
    ensures Amounts(p, s1, steps, s', published)
    ensures published ==>
              |begun| == 2 && begun[0].Begin? && begun[0].source == source && begun[1] == Accept(id, p.content)
  {
    hide Inv, Ready, Trace, Quiet, NotFilled, Filled, EndedFast, RenamesOnce, Made, ContentFrom;
    NoSteps(s);
    begun, s1 := [], s;
    if !published && d' == s.disk {
      steps, s' := [], s;
    } else if !published && NotFilled(s.disk, d', p.name, p.content) {
      steps, s' := NotFilledSteps(s, [], s, id, p, source, p.content, d');
      QuietMakesNothing(s, steps, s', s, id);
    } else {
      var d1: Disk, temp: Path :|
        && HEADER_SIZE <= p.contentStart <= U32_MAX && Filled(s.disk, d1, temp, p.name, p.contentStart, p.content)
        && EndedFast(p, d1, d', temp, s.disk.next, published);
      begun, s1 := FilledSteps(s, [], s, id, p, d1, temp, p.contentStart, source, Some(p.content), p.content);
      assert Carries(s1.writers[id], p);
      NoSteps(s1);
      steps, s' := FastEndSteps(s1, [], s1, id, p, d', published);
    }
    assert s1.writers - {id} == s.writers;
  }
}
