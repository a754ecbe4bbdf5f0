/** What every interleaving of the protocol keeps. */
module Safety {
  import opened Outcome
  import opened Bytes
  import opened Blocks
  import opened Layout
  import opened Objects
  import opened Disks
  import opened ObjectFiles
  import opened Protocol

  // ---- the invariant ----------------------------------------------------------------------------

  /** A complete object. */
  ghost predicate Complete(b: seq<byte>) {
    exists h, m, t, c :: IsObject(b, h, m, t, c)
  }

  /** The bytes of a temporary file in each phase. */
  ghost predicate Stage(x: Writer, bytes: seq<byte>) {
    match x.phase
    case Streaming => bytes == Staged(x.contentStart, x.content)
    case Sealing(n) =>
      && n <= |x.prefix| == x.contentStart
      && bytes == Overwrite(Staged(x.contentStart, x.content), 0, x.prefix[..n])
      && IsObject(x.Image(), x.header, x.metadata, x.tags, x.content) && Copied(x)
    case Sealed =>
      bytes == x.Image() && IsObject(x.Image(), x.header, x.metadata, x.tags, x.content) && Copied(x)
  }

  /** What was to be copied has been copied. */
  predicate Copied(x: Writer) {
    x.copies.Some? ==> x.content == x.copies.value
  }

  /** A writer's file is under its own temporary name and nowhere else, not even after a crash, and no other writer and
      no reader has it. */
  ghost predicate Owns(d: Disk, x: Writer) {
    && x.temp.Temp? && x.temp in d.dir && d.dir[x.temp] == x.ino && x.ino in d.files
    && (forall p :: Some(x.ino) in d.MayBe(p) ==> p == x.temp)
  }

  ghost predicate WriterOk(s: State, w: nat)
    requires w in s.writers
  {
    var x := s.writers[w];
    && Owns(s.disk, x)
    && Stage(x, s.disk.files[x.ino].bytes)
    && (x.phase == Sealed && x.sync ==> s.disk.files[x.ino].synced)
    && (x.name in s.durable ==> x.sync)
    && (forall r :: r in s.readers ==> s.readers[r].ino != x.ino)
  }

  ghost predicate Apart(s: State) {
    forall v, w :: v in s.writers && w in s.writers && v != w ==>
      s.writers[v].ino != s.writers[w].ino && s.writers[v].temp != s.writers[w].temp
  }

  /** The names the promises hold for: after a crash, only those whose files were always flushed before the rename. */
  ghost predicate Dependable(s: State, name: string) {
    name in s.durable || !s.crashed
  }

  /** Whatever the name holds, or may hold after a crash, is an object it started with or that some `finish` made. */
  ghost predicate NameOk(s: State, name: string) {
    forall i :: Some(i) in s.disk.MayBe(Object(name)) ==>
      && i in s.disk.files
      && (Dependable(s, name) ==> (name, s.disk.files[i].bytes) in s.initial + s.made)
      && (name in s.durable ==> s.disk.files[i].synced)
  }

  ghost predicate ReaderOk(s: State, r: nat)
    requires r in s.readers
  {
    s.readers[r].ino in s.disk.files && s.disk.files[s.readers[r].ino].bytes == s.readers[r].bytes
  }

  ghost predicate Inv(s: State) {
    && s.disk.Ok()
    && (forall e :: e in s.made ==> Complete(e.1))
    && (forall w :: w in s.writers ==> WriterOk(s, w))
    && Apart(s)
    && (forall name :: NameOk(s, name))
    && (forall r :: r in s.readers ==> ReaderOk(s, r))
  }

  lemma InvIsReady(s: State)
    requires Inv(s)
    ensures Ready(s)
  {
    hide Stage;
    forall w | w in s.writers
      ensures s.writers[w].temp in s.disk.dir && s.writers[w].ino in s.disk.files
    {
      assert WriterOk(s, w);
    }
  }

  /** At the start nobody is at work, nothing is half flushed, and the names hold whatever they hold. */
  ghost predicate Init(s: State) {
    && s.disk.Ok() && s.disk.fallback == map[]
    && s.writers == map[] && s.readers == map[] && s.made == {} && !s.crashed
    && (forall p :: p in s.disk.dir && p.Object? ==> (p.name, s.disk.files[s.disk.dir[p]].bytes) in s.initial)
    && (forall e :: e in s.initial ==>
          Object(e.0) in s.disk.dir && s.disk.files[s.disk.dir[Object(e.0)]].bytes == e.1)
    && (forall p :: p in s.disk.dir && p.Object? && p.name in s.durable ==> s.disk.files[s.disk.dir[p]].synced)
    && s.left == set p | p in s.disk.dir && p.Temp?
  }

  lemma InitIsSafe(s: State)
    requires Init(s)
    ensures Inv(s)
  {
    forall name
      ensures NameOk(s, name)
    {
      assert s.disk.MayBe(Object(name)) == {s.disk.Entry(Object(name))};
    }
  }

  // ---- how each disk operation moves the entries ------------------------------------------------

  /** After `CreateNew`, `Rename` and `Unlink` an entry may be what it is now or what it may have been before. */
  lemma MayBeAfter(d: Disk, a: Path, b: Path, p: Path)
    requires a != b
    ensures d.CreateNew(a).MayBe(p) == if p == a then {Some(d.next)} + d.MayBe(p) else d.MayBe(p)
    ensures d.Unlink(a).MayBe(p) == if p == a then {None} + d.MayBe(p) else d.MayBe(p)
    ensures a in d.dir ==>
              d.Rename(a, b).MayBe(p) == if p == a then {None} + d.MayBe(p)
                                         else if p == b then {Some(d.dir[a])} + d.MayBe(p)
                                         else d.MayBe(p)
    ensures d.SyncDirectory().MayBe(p) == {d.Entry(p)} <= d.MayBe(p)
  {
  }

  lemma EntriesHaveFiles(d: Disk, p: Path, i: nat)
    requires d.Ok() && Some(i) in d.MayBe(p)
    ensures i in d.files && i < d.next
  {
    if p in d.fallback && Some(i) in d.fallback[p] {
    }
  }

  /** No entry of an object and no reader has a writer's file. */
  lemma WritersAreAlone(s: State, w: nat)
    requires Inv(s) && w in s.writers
    ensures forall name :: Some(s.writers[w].ino) !in s.disk.MayBe(Object(name))
    ensures forall r :: r in s.readers ==> s.readers[r].ino != s.writers[w].ino
    ensures forall v :: v in s.writers && v != w ==> s.writers[v].ino != s.writers[w].ino
  {
    hide Stage;
    assert WriterOk(s, w);
  }

  // ---- steps of one writer on its own file ------------------------------------------------------

  /** The disk changed in the bytes of one file only. */
  ghost predicate OnlyBytes(d: Disk, d': Disk, ino: nat) {
    ino in d.files && ino in d'.files && d' == d.(files := d.files[ino := d'.files[ino]])
  }

  lemma OnlyBytesKeeps(d: Disk, d': Disk, ino: nat)
    requires OnlyBytes(d, d', ino)
    ensures forall p :: d'.MayBe(p) == d.MayBe(p)
    ensures forall i :: i in d.files && i != ino ==> i in d'.files && d'.files[i] == d.files[i]
    ensures d'.files.Keys == d.files.Keys
    ensures d.Ok() ==> d'.Ok()
  {
    assert forall p :: d'.MayBe(p) == d.MayBe(p);
  }

  /** A writer that works on its own file and stays within its phase keeps the invariant. */
  lemma WorkKeeps(s: State, s': State, w: nat)
    requires Inv(s) && w in s.writers && w in s'.writers
    requires OnlyBytes(s.disk, s'.disk, s.writers[w].ino)
    requires s' == s.(disk := s'.disk, writers := s.writers[w := s'.writers[w]])
    requires var x, x' := s.writers[w], s'.writers[w];
             && x'.ino == x.ino && x'.temp == x.temp && x'.name == x.name && x'.sync == x.sync
             && Stage(x', s'.disk.files[x.ino].bytes)
             && (x'.phase == Sealed && x'.sync ==> s'.disk.files[x.ino].synced)
    ensures Inv(s')
  {
    hide Stage, Complete;
    var ino := s.writers[w].ino;
    OnlyBytesKeeps(s.disk, s'.disk, ino);
    WritersAreAlone(s, w);
    forall v | v in s'.writers
      ensures WriterOk(s', v)
    {
      assert WriterOk(s, v);
    }
    forall name
      ensures NameOk(s', name)
    {
      assert NameOk(s, name);
    }
    forall r | r in s'.readers
      ensures ReaderOk(s', r)
    {
      assert ReaderOk(s, r);
    }
  }

  lemma AcceptStage(x: Writer, bytes: seq<byte>, data: seq<byte>)
    requires Stage(x, bytes) && x.phase == Streaming
    ensures Stage(Grown(x, data), Overwrite(bytes, x.contentStart + |x.content|, data))
  {
    StagedWrite(x.contentStart, x.content, data);
  }

  lemma DecideStage(x: Writer, bytes: seq<byte>, h: ObjectHeader, mo: seq<Entry>, to: seq<Entry>)
    requires Stage(x, bytes) && CanDecide(x, h, mo, to) && SectionsFit(h.Layout(), mo, to)
             && h.contentStart == x.contentStart
    ensures Stage(Decided(x, h, Prefix(h, mo, to)), bytes)
  {
    hide Prefix, MapSize, Repartition, LegalMap, Enumerates;
    var x' := Decided(x, h, Prefix(h, mo, to));
    assert x'.prefix[..0] == [];
    assert IsImage(x'.Image(), h, x.metadata, x.tags, x.content, mo, to);
  }

  lemma PrefixStage(x: Writer, bytes: seq<byte>, count: nat)
    requires Stage(x, bytes) && x.phase.Sealing? && x.phase.written + count <= |x.prefix|
    ensures var n := x.phase.written;
            Stage(x.(phase := Sealing(n + count)), Overwrite(bytes, n, x.prefix[n..n + count]))
  {
    hide IsObject;
    var n := x.phase.written;
    OverwriteTwice(Staged(x.contentStart, x.content), 0, x.prefix[..n], x.prefix[n..n + count]);
    assert x.prefix[..n] + x.prefix[n..n + count] == x.prefix[..n + count];
  }

  lemma SealStage(x: Writer, bytes: seq<byte>)
    requires Stage(x, bytes) && x.phase == Sealing(|x.prefix|)
    ensures Stage(x.(phase := Sealed), bytes)
  {
    hide IsObject;
    assert x.prefix[..|x.prefix|] == x.prefix;
    StagedSealed(x.contentStart, x.content, x.prefix);
  }

  lemma SectionsStepKeeps(s: State, step: Step)
    requires Inv(s) && Ready(s) && Enabled(s, step)
    requires step.Edit? || step.Decide? || step.Flush?
    ensures Inv(Next(s, step))
  {
    hide Inv, Stage, Overwrite, Staged, Prefix, CanDecide;
    var w, s' := step.w, Next(s, step);
    var x := s.writers[w];
    StageOf(s, w);
    var bytes := s.disk.files[x.ino].bytes;
    assert s.disk.files[x.ino := s.disk.files[x.ino]] == s.disk.files;
    match step {
      case Edit(_, _, _) => EditStage(x, bytes, step.metadata, step.tags);
      case Decide(_, h, mo, to) =>
        DecidedFits(x, h, mo, to);
        DecideStage(x, bytes, h, mo, to);
      case Flush(_) => SealStage(x, bytes);
    }
    WorkKeeps(s, s', w);
  }

  lemma WritingStepKeeps(s: State, step: Step)
    requires Inv(s) && Ready(s) && Enabled(s, step)
    requires step.Accept? || step.WritePrefix?
    ensures Inv(Next(s, step))
  {
    hide Inv, Stage, Overwrite, Staged, Prefix, CanDecide;
    var w, s' := step.w, Next(s, step);
    var x := s.writers[w];
    StageOf(s, w);
    var bytes := s.disk.files[x.ino].bytes;
    if step.Accept? {
      AcceptStage(x, bytes, step.data);
    } else {
      PrefixStage(x, bytes, step.count);
    }
    WorkKeeps(s, s', w);
  }

  lemma StageOf(s: State, w: nat)
    requires Inv(s) && w in s.writers
    ensures s.writers[w].ino in s.disk.files && Stage(s.writers[w], s.disk.files[s.writers[w].ino].bytes)
  {
    hide Stage;
    assert WriterOk(s, w);
  }

  lemma EditStage(x: Writer, bytes: seq<byte>, m: Map, t: Map)
    requires Stage(x, bytes) && x.phase == Streaming
    ensures Stage(x.(metadata := m, tags := t), bytes)
  {
  }

  // ---- the other steps --------------------------------------------------------------------------

  /** No file changed, and no entry can be a file it could not be before, except `p0`, which gained `i0`. */
  ghost predicate Gains(d: Disk, d': Disk, p0: Path, i0: nat) {
    && d'.Ok()
    && (forall i :: i in d.files ==> i in d'.files && d'.files[i] == d.files[i])
    && (forall p, i :: Some(i) in d'.MayBe(p) ==> Some(i) in d.MayBe(p) || (p == p0 && i == i0))
  }

  lemma FallbackHasFiles(d: Disk, d': Disk)
    requires d.Ok() && d.files.Keys <= d'.files.Keys
    requires forall p :: p in d'.fallback ==> d'.fallback[p] <= d.MayBe(p)
    ensures forall p, e :: p in d'.fallback && e in d'.fallback[p] && e.Some? ==> e.value in d'.files
  {
    forall p, e | p in d'.fallback && e in d'.fallback[p] && e.Some?
      ensures e.value in d'.files
    {
      EntriesHaveFiles(d, p, e.value);
    }
  }

  lemma CreationGains(d: Disk, a: Path)
    requires d.Ok()
    ensures Gains(d, d.CreateNew(a), a, d.next)
  {
    FallbackHasFiles(d, d.CreateNew(a));
  }

  lemma RenameGains(d: Disk, a: Path, b: Path)
    requires d.Ok() && a in d.dir && a != b
    ensures Gains(d, d.Rename(a, b), b, d.dir[a])
  {
    FallbackHasFiles(d, d.Rename(a, b));
  }

  lemma NothingGained(d: Disk, a: Path, p0: Path, i0: nat)
    requires d.Ok()
    ensures Gains(d, d, p0, i0) && Gains(d, d.Unlink(a), p0, i0) && Gains(d, d.SyncDirectory(), p0, i0)
  {
    FallbackHasFiles(d, d.Unlink(a));
  }

  lemma OwnsStill(d: Disk, d': Disk, x: Writer, p0: Path, i0: nat)
    requires Owns(d, x) && Gains(d, d', p0, i0) && i0 != x.ino
    requires x.temp in d'.dir && d'.dir[x.temp] == x.ino
    ensures Owns(d', x) && d'.files[x.ino] == d.files[x.ino]
  {
  }

  /** A writer that a step does not concern. */
  lemma OtherWriter(s: State, s': State, v: nat, p0: Path, i0: nat)
    requires v in s.writers && WriterOk(s, v) && v in s'.writers && s'.writers[v] == s.writers[v]
    requires Gains(s.disk, s'.disk, p0, i0) && i0 != s.writers[v].ino && s'.durable == s.durable
    requires s.writers[v].temp in s'.disk.dir && s'.disk.dir[s.writers[v].temp] == s.writers[v].ino
    requires forall r :: r in s'.readers ==> s'.readers[r].ino != s.writers[v].ino
    ensures WriterOk(s', v)
  {
    OwnsStill(s.disk, s'.disk, s.writers[v], p0, i0);
    hide Owns, Stage, Gains;
  }

  /** A name that gained nothing, or an object that was made and, if the name is durable, flushed. */
  lemma OtherName(s: State, s': State, name: string, p0: Path, i0: nat)
    requires NameOk(s, name) && Gains(s.disk, s'.disk, p0, i0)
    requires s'.durable == s.durable && s'.initial == s.initial && s.made <= s'.made && s'.crashed == s.crashed
    requires p0 == Object(name) ==>
               && i0 in s'.disk.files && (name, s'.disk.files[i0].bytes) in s'.made
               && (name in s.durable ==> s'.disk.files[i0].synced)
    ensures NameOk(s', name)
  {
  }

  /** The step concerned at most the writers in `who`: what holds of everybody else still does. */
  lemma OthersKeep(s: State, s': State, who: set<nat>, p0: Path, i0: nat)
    requires Inv(s) && Gains(s.disk, s'.disk, p0, i0)
    requires s'.durable == s.durable && s'.initial == s.initial && s.made <= s'.made && s'.crashed == s.crashed
    requires forall v :: v in s'.writers && v !in who ==>
               && v in s.writers && s'.writers[v] == s.writers[v] && i0 != s.writers[v].ino
               && s.writers[v].temp in s'.disk.dir && s'.disk.dir[s.writers[v].temp] == s.writers[v].ino
    requires forall r :: r in s'.readers ==> r in s.readers && s'.readers[r] == s.readers[r]
    requires p0.Object? ==>
               && i0 in s'.disk.files && (p0.name, s'.disk.files[i0].bytes) in s'.made
               && (p0.name in s.durable ==> s'.disk.files[i0].synced)
    ensures forall v :: v in s'.writers && v !in who ==> WriterOk(s', v)
    ensures forall name :: NameOk(s', name)
    ensures forall r :: r in s'.readers ==> ReaderOk(s', r)
  {
    hide Stage, Complete, Owns;
    forall v | v in s'.writers && v !in who
      ensures WriterOk(s', v)
    {
      assert WriterOk(s, v);
      hide Gains, NameOk;
      OtherWriter(s, s', v, p0, i0);
    }
    forall name
      ensures NameOk(s', name)
    {
      assert NameOk(s, name);
      hide WriterOk, NameOk;
      OtherName(s, s', name, p0, i0);
    }
    forall r | r in s'.readers
      ensures ReaderOk(s', r)
    {
      assert ReaderOk(s, r);
    }
  }

  /** The step concerned at most the writers in `who`, and they are in order. */
  lemma MoveKeeps(s: State, s': State, who: set<nat>, p0: Path, i0: nat)
    requires Inv(s) && Gains(s.disk, s'.disk, p0, i0)
    requires s'.durable == s.durable && s'.initial == s.initial && s.made <= s'.made && s'.crashed == s.crashed
    requires forall v :: v in s'.writers && v !in who ==>
               && v in s.writers && s'.writers[v] == s.writers[v] && i0 != s.writers[v].ino
               && s.writers[v].temp in s'.disk.dir && s'.disk.dir[s.writers[v].temp] == s.writers[v].ino
    requires forall r :: r in s'.readers ==> r in s.readers && s'.readers[r] == s.readers[r]
    requires p0.Object? ==>
               && i0 in s'.disk.files && (p0.name, s'.disk.files[i0].bytes) in s'.made
               && (p0.name in s.durable ==> s'.disk.files[i0].synced)
    requires Apart(s') && forall v :: v in s'.writers && v in who ==> WriterOk(s', v)
    requires forall e :: e in s'.made - s.made ==> Complete(e.1)
    ensures Inv(s')
  {
    OthersKeep(s, s', who, p0, i0);
    hide WriterOk, NameOk, ReaderOk, Complete, Apart;
  }

  lemma ApartWithout(s: State, s': State)
    requires Inv(s)
    requires forall v :: v in s'.writers ==> v in s.writers && s'.writers[v] == s.writers[v]
    ensures Apart(s')
  {
    hide WriterOk, NameOk, ReaderOk, Complete;
  }

  lemma ApartWith(s: State, s': State, w: nat)
    requires Inv(s) && w in s'.writers
    requires forall v :: v in s'.writers && v != w ==> v in s.writers && s'.writers[v] == s.writers[v]
    requires forall v :: v in s.writers ==>
               s.writers[v].ino != s'.writers[w].ino && s.writers[v].temp != s'.writers[w].temp
    ensures Apart(s')
  {
    hide WriterOk, NameOk, ReaderOk, Complete;
  }

  lemma EmptyStage(x: Writer)
    requires x.content == [] && x.phase == Streaming
    ensures Stage(x, [])
  {
  }

  /** A new file is nobody's. */
  lemma NewFileIsNobodys(s: State)
    requires Inv(s)
    ensures forall p :: Some(s.disk.next) !in s.disk.MayBe(p)
    ensures forall v :: v in s.writers ==> s.writers[v].ino != s.disk.next
    ensures forall r :: r in s.readers ==> s.readers[r].ino != s.disk.next
  {
    hide Stage, Complete, NameOk;
    forall p | Some(s.disk.next) in s.disk.MayBe(p)
      ensures false
    {
      EntriesHaveFiles(s.disk, p, s.disk.next);
    }
    forall v | v in s.writers
      ensures s.writers[v].ino != s.disk.next
    {
      assert WriterOk(s, v);
    }
    forall r | r in s.readers
      ensures s.readers[r].ino != s.disk.next
    {
      assert ReaderOk(s, r);
    }
  }

  lemma BeginKeeps(s: State, w: nat, x: Writer)
    requires Inv(s) && w !in s.writers && x.temp.Temp? && x.temp !in s.disk.dir && x.ino == s.disk.next
    requires x.content == [] && x.phase == Streaming && (x.name in s.durable ==> x.sync)
    ensures Inv(s.(disk := s.disk.CreateNew(x.temp), writers := s.writers[w := x]))
  {
    hide Stage, Complete, Gains, NameOk, ReaderOk, Staged;
    var s' := s.(disk := s.disk.CreateNew(x.temp), writers := s.writers[w := x]);
    NewFileIsNobodys(s);
    CreationGains(s.disk, x.temp);
    EntriesOfWriters(s);
    EmptyStage(x);
    NewOwner(s.disk, x);
    hide Owns;
    assert WriterOk(s', w);
    hide WriterOk;
    ApartWith(s, s', w);
    hide Apart, Inv;
    MoveKeeps(s, s', {w}, x.temp, x.ino);
  }

  lemma NewOwner(d: Disk, x: Writer)
    requires x.temp.Temp? && x.ino == d.next && forall p :: Some(d.next) !in d.MayBe(p)
    ensures Owns(d.CreateNew(x.temp), x)
  {
    forall p | Some(x.ino) in d.CreateNew(x.temp).MayBe(p)
      ensures p == x.temp
    {
      MayBeAfter(d, x.temp, Object(""), p);
    }
  }

  lemma EntriesOfWriters(s: State)
    requires Inv(s)
    ensures forall v :: v in s.writers ==>
              s.writers[v].temp.Temp? && s.writers[v].temp in s.disk.dir
                && s.disk.dir[s.writers[v].temp] == s.writers[v].ino
  {
    hide Stage, Complete, NameOk, ReaderOk;
    forall v | v in s.writers
      ensures s.writers[v].temp.Temp? && s.writers[v].temp in s.disk.dir
              && s.disk.dir[s.writers[v].temp] == s.writers[v].ino
    {
      assert WriterOk(s, v);
    }
  }

  /** A writer that goes away, with or without its entry, keeps the invariant. */
  lemma LeaveKeeps(s: State, w: nat, removed: bool, left: set<Path>)
    requires Inv(s) && w in s.writers
    ensures var temp := s.writers[w].temp;
            Inv(s.(disk := if removed then s.disk.Unlink(temp) else s.disk, writers := s.writers - {w}, left := left))
  {
    hide Stage, Complete, Gains, NameOk, ReaderOk, Owns;
    var x := s.writers[w];
    var d' := if removed then s.disk.Unlink(x.temp) else s.disk;
    var s' := s.(disk := d', writers := s.writers - {w}, left := left);
    EntriesOfWriters(s);
    NothingGained(s.disk, x.temp, x.temp, x.ino);
    hide WriterOk;
    ApartWithout(s, s');
    hide Apart, Inv;
    MoveKeeps(s, s', {w}, x.temp, x.ino);
  }

  lemma SealedIsComplete(s: State, w: nat)
    requires Inv(s) && w in s.writers && s.writers[w].phase == Sealed
    ensures var x := s.writers[w];
            && x.ino in s.disk.files && s.disk.files[x.ino].bytes == x.Image()
            && IsObject(x.Image(), x.header, x.metadata, x.tags, x.content) && Complete(x.Image()) && Copied(x)
            && (x.sync ==> s.disk.files[x.ino].synced) && (x.name in s.durable ==> x.sync)
  {
    hide IsObject, NameOk, ReaderOk;
    assert WriterOk(s, w);
    hide Inv;
  }

  lemma PublishKeeps(s: State, w: nat)
    requires Inv(s) && w in s.writers && s.writers[w].temp in s.disk.dir && s.writers[w].phase == Sealed
    ensures var x := s.writers[w];
            Inv(s.(disk := s.disk.Rename(x.temp, Object(x.name)), writers := s.writers - {w},
                   made := s.made + {(x.name, x.Image())}))
  {
    hide Stage, Complete, Gains, NameOk, ReaderOk, Owns, IsObject;
    var x := s.writers[w];
    var s' := s.(disk := s.disk.Rename(x.temp, Object(x.name)), writers := s.writers - {w},
                 made := s.made + {(x.name, x.Image())});
    SealedIsComplete(s, w);
    EntriesOfWriters(s);
    hide WriterOk;
    RenameGains(s.disk, x.temp, Object(x.name));
    ApartWithout(s, s');
    hide Apart, Inv;
    MoveKeeps(s, s', {w}, Object(x.name), x.ino);
  }

  lemma SyncDirectoryKeeps(s: State)
    requires Inv(s)
    ensures Inv(s.(disk := s.disk.SyncDirectory()))
  {
    hide Stage, Complete, Gains, NameOk, ReaderOk, Owns;
    var s' := s.(disk := s.disk.SyncDirectory());
    EntriesOfWriters(s);
    hide WriterOk;
    var temp := Temp("", 0, 0);
    NewFileIsNobodys(s);
    NothingGained(s.disk, temp, temp, s.disk.next);
    ApartWithout(s, s');
    hide Apart, Inv;
    MoveKeeps(s, s', {}, temp, s.disk.next);
  }

  lemma ReaderLeaves(s: State, r: nat)
    requires Inv(s)
    ensures Inv(s.(readers := s.readers - {r}))
  {
    hide Stage, Complete, Gains, NameOk, ReaderOk, Owns;
    var s' := s.(readers := s.readers - {r});
    EntriesOfWriters(s);
    hide WriterOk;
    var temp := Temp("", 0, 0);
    NewFileIsNobodys(s);
    NothingGained(s.disk, temp, temp, s.disk.next);
    assert forall v :: v in s.writers ==> WriterOk(s, v);
    forall v | v in s'.writers
      ensures forall r' :: r' in s'.readers ==> s'.readers[r'].ino != s'.writers[v].ino
    {
      WritersAreAlone(s, v);
    }
    ApartWithout(s, s');
    hide Apart, Inv;
    MoveKeeps(s, s', {}, temp, s.disk.next);
  }

  lemma ReaderComes(s: State, r: nat, name: string)
    requires Inv(s) && Object(name) in s.disk.dir && s.disk.dir[Object(name)] in s.disk.files
    ensures var ino := s.disk.dir[Object(name)];
            Inv(s.(readers := s.readers[r := Reader(ino, s.disk.files[ino].bytes)]))
  {
    hide Stage, Complete;
    var ino := s.disk.dir[Object(name)];
    var s' := s.(readers := s.readers[r := Reader(ino, s.disk.files[ino].bytes)]);
    assert s.disk.Entry(Object(name)) in s.disk.MayBe(Object(name));
    forall v | v in s'.writers
      ensures WriterOk(s', v)
    {
      assert WriterOk(s, v);
      WritersAreAlone(s, v);
      hide Owns;
    }
    hide WriterOk;
    forall n
      ensures NameOk(s', n)
    {
      assert NameOk(s, n);
    }
    forall q | q in s'.readers
      ensures ReaderOk(s', q)
    {
      assert q in s.readers ==> ReaderOk(s, q);
    }
  }

  lemma CrashKeeps(s: State, after: Disk, left: set<Path>)
    requires Inv(s) && CrashOf(s.disk, after)
    ensures Inv(s.(disk := after, writers := map[], readers := map[], crashed := true, left := left))
  {
    hide Complete, WriterOk, ReaderOk;
    var s' := s.(disk := after, writers := map[], readers := map[], crashed := true, left := left);
    forall p, i | Some(i) in after.MayBe(p)
      ensures Some(i) in s.disk.MayBe(p) && i in s.disk.files
    {
      assert after.Entry(p) in s.disk.MayBe(p);
      EntriesHaveFiles(s.disk, p, i);
    }
    forall p | p in after.dir
      ensures after.dir[p] in after.files
    {
      assert Some(after.dir[p]) in after.MayBe(p);
    }
    forall name
      ensures NameOk(s', name)
    {
      assert NameOk(s, name);
    }
  }

  /** Every step keeps the invariant. */
  lemma StepKeeps(s: State, step: Step)
    requires Inv(s) && Ready(s) && Enabled(s, step)
    ensures Inv(Next(s, step)) && Ready(Next(s, step))
  {
    hide Inv, CanDecide, CrashOf, ContentFrom, Prefix;
    match step {
      case Begin(w, x, source) => BeginKeeps(s, w, x);
      case Publish(w) => PublishKeeps(s, w);
      case PublishFails(w) => LeaveKeeps(s, w, false, s.left + {s.writers[w].temp});
      case Vanish(w, removed) =>
        LeaveKeeps(s, w, removed, if removed then s.left else s.left + {s.writers[w].temp});
      case SyncDirectory => SyncDirectoryKeeps(s);
      case Open(r, name) => ReaderComes(s, r, name);
      case Close(r) => ReaderLeaves(s, r);
      case Crash(after) => CrashKeeps(s, after, set p | p in after.dir && p.Temp?);
      case _ =>
        if step.Accept? || step.WritePrefix? {
          WritingStepKeeps(s, step);
        } else {
          SectionsStepKeeps(s, step);
        }
    }
    InvIsReady(Next(s, step));
  }
}
