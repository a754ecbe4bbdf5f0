/** The promises of the protocol over whole runs: publication, crashes, readers, temporary files. */
module Interleavings {
  import opened Outcome
  import opened Bytes
  import opened Objects
  import opened Disks
  import opened Protocol
  import opened Safety

  /** A run: any steps in any order. `Ready` is what the next state is defined for; every state reached is ready. */
  ghost predicate Run(states: seq<State>, steps: seq<Step>) {
    && |states| == |steps| + 1 && Init(states[0])
    && forall i :: 0 <= i < |steps| ==> Moved(states[i], steps[i], states[i + 1])
  }

  ghost predicate Moved(s: State, step: Step, s': State) {
    Enabled(s, step) && (Ready(s) ==> s' == Next(s, step))
  }

  /** The bytes a name holds. */
  function Held(d: Disk, name: string): Option<seq<byte>> {
    var e := d.Entry(Object(name));
    if e.Some? && e.value in d.files then Some(d.files[e.value].bytes) else None
  }

  /** The step renames a writer's file over the name. */
  predicate Publishes(s: State, step: Step, name: string) {
    step.Publish? && step.w in s.writers && s.writers[step.w].name == name
  }

  lemma {:induction false} RunKeeps(states: seq<State>, steps: seq<Step>, i: nat)
    requires Run(states, steps) && i < |states|
    ensures Inv(states[i]) && Ready(states[i])
  {
    hide Inv, Ready, Enabled, Next, Init;
    if i == 0 {
      InitIsSafe(states[0]);
      InvIsReady(states[0]);
    } else {
      RunKeeps(states, steps, i - 1);
      assert Moved(states[i - 1], steps[i - 1], states[i]);
      StepKeeps(states[i - 1], steps[i - 1]);
    }
  }

  // ---- what a step does to a name ---------------------------------------------------------------

  lemma ObjectFilesStay(s: State, step: Step, name: string, i: nat)
    requires Inv(s) && Ready(s) && Enabled(s, step) && !step.Crash?
    requires Some(i) in s.disk.MayBe(Object(name))
    ensures i in s.disk.files && i in Next(s, step).disk.files
            && Next(s, step).disk.files[i].bytes == s.disk.files[i].bytes
  {
    hide WriterOk, NameOk, ReaderOk, Complete, Overwrite, CanDecide, CrashOf, ContentFrom, Prefix, Apart;
    EntriesHaveFiles(s.disk, Object(name), i);
    if step.Accept? || step.WritePrefix? || step.Flush? {
      WritersAreAlone(s, step.w);
    }
  }

  /** The values a name may return to after a crash: those it could return to before, and the one it has now. */
  lemma OneMoreValue(s: State, step: Step, name: string)
    requires Inv(s) && Ready(s) && Enabled(s, step) && !step.Crash?
    ensures var d' := Next(s, step).disk;
            d'.MayBe(Object(name)) <= s.disk.MayBe(Object(name)) + {d'.Entry(Object(name))}
  {
    hide WriterOk, NameOk, ReaderOk, Complete, Overwrite, CanDecide, CrashOf, ContentFrom, Prefix, Apart;
    EntriesOfWriters(s);
  }

  lemma EntryAfter(s: State, step: Step, name: string)
    requires Inv(s) && Ready(s) && Enabled(s, step) && !step.Crash?
    ensures Next(s, step).disk.Entry(Object(name))
         == if Publishes(s, step, name) then Some(s.writers[step.w].ino) else s.disk.Entry(Object(name))
  {
    hide Inv, Overwrite, CanDecide, CrashOf, ContentFrom, Prefix;
    EntriesOfWriters(s);
  }

  lemma PublishedBytes(s: State, step: Step)
    requires Inv(s) && Ready(s) && Enabled(s, step) && step.Publish?
    ensures var x := s.writers[step.w];
            && x.ino in Next(s, step).disk.files && Next(s, step).disk.files[x.ino].bytes == x.Image()
            && IsObject(x.Image(), x.header, x.metadata, x.tags, x.content)
  {
    hide Inv, CanDecide, CanBegin, CrashOf, ContentFrom, Prefix, IsObject;
    SealedIsComplete(s, step.w);
  }

  /** Only a successful rename changes what a name holds, and it puts the writer's whole object there; writers that
      fail, abort or vanish at any point never do. */
  lemma OnlyPublishingChangesNames(s: State, step: Step, name: string)
    requires Inv(s) && Ready(s) && Enabled(s, step) && !step.Crash?
    ensures Held(Next(s, step).disk, name)
         == if Publishes(s, step, name) then Some(s.writers[step.w].Image()) else Held(s.disk, name)
    ensures Publishes(s, step, name) ==>
              var x := s.writers[step.w]; IsObject(x.Image(), x.header, x.metadata, x.tags, x.content)
  {
    hide Inv, Ready, Enabled, Next, IsObject, Disk.Entry;
    EntryAfter(s, step, name);
    var e := s.disk.Entry(Object(name));
    if Publishes(s, step, name) {
      PublishedBytes(s, step);
    } else if e.Some? {
      assert e in s.disk.MayBe(Object(name));
      ObjectFilesStay(s, step, name, e.value);
    }
  }

  // ---- publication ------------------------------------------------------------------------------

  /** Step `j` of the run finished a writer on this name with these bytes: a complete object with that writer's sections
      and content. */
  ghost predicate Finished(states: seq<State>, steps: seq<Step>, j: nat, name: string, b: seq<byte>)
    requires |states| == |steps| + 1 && j < |steps|
  {
    && Publishes(states[j], steps[j], name)
    && var x := states[j].writers[steps[j].w];
       b == x.Image() && IsObject(b, x.header, x.metadata, x.tags, x.content)
  }

  /** Nothing is ever counted as made that no `finish` produced; the initial objects and the durable names stay what
      they were. */
  lemma {:induction false} MadeByFinishing(states: seq<State>, steps: seq<Step>, i: nat)
    requires Run(states, steps) && i < |states|
    ensures states[i].initial == states[0].initial && states[i].durable == states[0].durable
    ensures states[i].crashed <==> exists j :: 0 <= j < i && steps[j].Crash?
    ensures forall e :: e in states[i].made ==> exists j :: 0 <= j < i && Finished(states, steps, j, e.0, e.1)
  {
    hide Next, Enabled, Inv, Ready, IsObject;
    if i > 0 {
      MadeByFinishing(states, steps, i - 1);
      RunKeeps(states, steps, i - 1);
      var s, step := states[i - 1], steps[i - 1];
      assert Moved(s, step, states[i]);
      MadeByStep(s, step);
      forall e | e in states[i].made
        ensures exists j :: 0 <= j < i && Finished(states, steps, j, e.0, e.1)
      {
        if e in s.made {
          var j :| 0 <= j < i - 1 && Finished(states, steps, j, e.0, e.1);
          assert j < i;
        } else {
          assert Finished(states, steps, i - 1, e.0, e.1);
        }
      }
    }
  }

  lemma MadeByStep(s: State, step: Step)
    requires Inv(s) && Ready(s) && Enabled(s, step)
    ensures Next(s, step).initial == s.initial && Next(s, step).durable == s.durable
    ensures Next(s, step).crashed == (s.crashed || step.Crash?)
    ensures forall e :: e in Next(s, step).made - s.made ==>
              && Publishes(s, step, e.0) && e.1 == s.writers[step.w].Image()
              && var x := s.writers[step.w]; IsObject(x.Image(), x.header, x.metadata, x.tags, x.content)
  {
    hide WriterOk, NameOk, ReaderOk, Complete, Overwrite, CanDecide, CrashOf, ContentFrom, Prefix, Apart, IsObject, Inv;
    if step.Publish? {
      SealedIsComplete(s, step.w);
    }
  }

  /** Publication safety. In every interleaving of writers, setters and readers on one directory, at every moment, a
      name is absent, or holds the object it started with, or one complete object that some `finish` put there. With
      crashes, this holds of every name that is only written with `sync`. */
  lemma PublicationSafety(states: seq<State>, steps: seq<Step>, i: nat, name: string)
    requires Run(states, steps) && i < |states|
    requires name in states[0].durable || forall j :: 0 <= j < i ==> !steps[j].Crash?
    ensures match Held(states[i].disk, name)
            case None => Object(name) !in states[i].disk.dir
            case Some(b) =>
              || Held(states[0].disk, name) == Some(b)
              || exists j :: 0 <= j < i && Finished(states, steps, j, name, b)
  {
    hide Moved, Next, Enabled, Ready, WriterOk, ReaderOk, Complete, Finished;
    RunKeeps(states, steps, i);
    MadeByFinishing(states, steps, i);
    var s := states[i];
    assert NameOk(s, name);
    assert s.disk.Entry(Object(name)) in s.disk.MayBe(Object(name));
    if Held(s.disk, name).Some? {
      var b := Held(s.disk, name).value;
      assert (name, b) in s.initial + s.made;
      if (name, b) in s.initial {
        assert (name, b) in states[0].initial;
      } else {
        var e := (name, b);
        assert e in s.made;
        var j :| 0 <= j < i && Finished(states, steps, j, e.0, e.1);
        assert Finished(states, steps, j, name, b);
      }
    }
  }

  /** What a name holds stays until the next publication under that name, whatever else goes on. */
  lemma {:induction false} HeldUntilPublished(states: seq<State>, steps: seq<Step>, k: nat, i: nat, name: string)
    requires Run(states, steps) && k <= i < |states|
    requires forall j :: k <= j < i ==> !steps[j].Crash? && !Publishes(states[j], steps[j], name)
    ensures Held(states[i].disk, name) == Held(states[k].disk, name)
    decreases i - k
  {
    hide Next, Enabled, Ready, Inv, Held, Init, IsObject;
    if k < i {
      HeldUntilPublished(states, steps, k, i - 1, name);
      RunKeeps(states, steps, i - 1);
      assert Moved(states[i - 1], steps[i - 1], states[i]);
      OnlyPublishingChangesNames(states[i - 1], steps[i - 1], name);
    }
  }

  /** A reader keeps the whole object it opened, whatever is renamed over the name meanwhile. */
  lemma {:induction false} ReadersKeepTheirObject(states: seq<State>, steps: seq<Step>, o: nat, i: nat, r: nat)
    requires Run(states, steps) && o < i < |states| && steps[o].Open? && steps[o].reader == r
    requires forall j :: o < j < i ==> !steps[j].Crash? && steps[j] != Close(r)
    ensures r in states[i].readers && states[i].readers[r].ino in states[i].disk.files
    ensures Some(states[i].disk.files[states[i].readers[r].ino].bytes) == Held(states[o].disk, steps[o].name)
    decreases i
  {
    hide Next, Inv, Ready, Init, Enabled;
    RunKeeps(states, steps, i);
    RunKeeps(states, steps, i - 1);
    assert Moved(states[i - 1], steps[i - 1], states[i]);
    ReaderStays(states[i - 1], steps[i - 1], r);
    if i - 1 > o {
      ReadersKeepTheirObject(states, steps, o, i - 1, r);
      ReaderHas(states[i - 1], r);
    }
    ReaderHas(states[i], r);
  }

  lemma ReaderHas(s: State, r: nat)
    requires Inv(s) && r in s.readers
    ensures s.readers[r].ino in s.disk.files && s.disk.files[s.readers[r].ino].bytes == s.readers[r].bytes
  {
    assert ReaderOk(s, r);
  }

  lemma ReaderStays(s: State, step: Step, r: nat)
    requires Inv(s) && Ready(s) && Enabled(s, step) && !step.Crash? && step != Close(r)
    ensures r in s.readers ==> r in Next(s, step).readers && Next(s, step).readers[r] == s.readers[r]
    ensures step.Open? && step.reader == r ==>
              r in Next(s, step).readers && Some(Next(s, step).readers[r].bytes) == Held(s.disk, step.name)
  {
    hide WriterOk, NameOk, ReaderOk, Complete, Overwrite, CanDecide, CrashOf, ContentFrom, Prefix, Apart, Inv;
  }

  /** The writer stays at work from one state to the next. */
  predicate StaysAtWork(step: Step, w: nat) {
    !step.Crash? && step != Publish(w) && step != PublishFails(w) && !(step.Vanish? && step.w == w)
  }

  lemma WriterStays(s: State, step: Step, w: nat)
    requires Inv(s) && Ready(s) && Enabled(s, step) && w in s.writers && StaysAtWork(step, w)
    ensures w in Next(s, step).writers && Next(s, step).writers[w].copies == s.writers[w].copies
    ensures Next(s, step).writers[w].name == s.writers[w].name
  {
    hide Inv, Overwrite, CanDecide, CrashOf, ContentFrom, Prefix;
  }

  lemma {:induction false} WriterKeepsSource(states: seq<State>, steps: seq<Step>, b: nat, i: nat, w: nat, x: Writer,
                                             source: Source)
    requires Run(states, steps) && b < i < |states| && steps[b] == Begin(w, x, source)
    requires forall j :: b < j < i ==> StaysAtWork(steps[j], w)
    ensures w in states[i].writers && states[i].writers[w].copies == x.copies && states[i].writers[w].name == x.name
    ensures ContentFrom(states[b], source, x.copies)
    decreases i
  {
    hide Inv, Ready, Init, ContentFrom, Next, Enabled;
    RunKeeps(states, steps, i - 1);
    assert Moved(states[i - 1], steps[i - 1], states[i]);
    if i - 1 > b {
      WriterKeepsSource(states, steps, b, i - 1, w, x, source);
      WriterStays(states[i - 1], steps[i - 1], w);
    } else {
      WriterBegins(states[b], w, x, source);
    }
  }

  lemma WriterBegins(s: State, w: nat, x: Writer, source: Source)
    requires Ready(s) && Enabled(s, Begin(w, x, source))
    ensures w in Next(s, Begin(w, x, source)).writers && Next(s, Begin(w, x, source)).writers[w] == x
    ensures ContentFrom(s, source, x.copies)
  {
    hide ContentFrom;
  }

  /** An atomic update keeps the content, whoever else is at work: what it publishes is a complete object whose content
      is the stored content of the very object the updating handle had open when the update began. */
  lemma UpdatesKeepContent(states: seq<State>, steps: seq<Step>, b: nat, p: nat, w: nat, x: Writer, r: nat,
                           h: ObjectHeader)
    requires Run(states, steps) && b < p < |steps|
    requires steps[b] == Begin(w, x, Updating(r, h)) && steps[p] == Publish(w)
    requires forall j :: b < j < p ==> StaysAtWork(steps[j], w)
    ensures w in states[p].writers && r in states[b].readers
    ensures var y := states[p].writers[w];
            && Held(states[p + 1].disk, x.name) == Some(y.Image())
            && IsObject(y.Image(), y.header, y.metadata, y.tags, StoredContent(states[b].readers[r].bytes, h))
  {
    hide Next, Enabled, Ready, Inv, Init, IsObject, Held, StoredContent;
    WriterKeepsSource(states, steps, b, p, w, x, Updating(r, h));
    RunKeeps(states, steps, p);
    assert Moved(states[p], steps[p], states[p + 1]);
    OnlyPublishingChangesNames(states[p], steps[p], x.name);
    PublishIsSealed(states[p], w);
    SealedIsComplete(states[p], w);
  }

  lemma PublishIsSealed(s: State, w: nat)
    requires Enabled(s, Publish(w))
    ensures w in s.writers && s.writers[w].phase == Sealed
  {
  }

  // ---- crashes ----------------------------------------------------------------------------------

  /** Every file the name may be after a crash has been flushed. */
  ghost predicate Flushed(d: Disk, name: string) {
    forall i :: Some(i) in d.MayBe(Object(name)) ==> i in d.files && d.files[i].synced
  }

  /** What a crash leaves under the name is nothing, the object it started with, or one that was finished. */
  ghost predicate SurvivesAs(s: State, after: Disk, name: string) {
    match Held(after, name)
    case None => true
    case Some(b) => (name, b) in s.initial + s.made
  }

  /** Some byte string is not among finitely many. */
  lemma AnotherString(known: set<(string, seq<byte>)>) returns (n: nat)
    ensures forall e :: e in known ==> |e.1| < n
  {
    if known == {} {
      n := 0;
    } else {
      var e :| e in known;
      var m := AnotherString(known - {e});
      n := if m > |e.1| then m else |e.1| + 1;
      assert forall f :: f in known ==> f == e || f in known - {e};
    }
  }

  /** The crash that leaves file `i` under the name, with `junk` in every file that was not flushed. */
  function Torn(d: Disk, name: string, i: nat, junk: seq<byte>): Disk {
    Disk(d.dir[Object(name) := i],
         map j | j in d.files :: Inode(if d.files[j].synced then d.files[j].bytes else junk, true),
         map[], d.next)
  }

  lemma TornIsACrash(d: Disk, name: string, i: nat, junk: seq<byte>)
    requires Some(i) in d.MayBe(Object(name))
    ensures CrashOf(d, Torn(d, name, i, junk))
  {
    var after := Torn(d, name, i, junk);
    forall p
      ensures after.Entry(p) in d.MayBe(p)
    {
      if p != Object(name) {
        assert after.Entry(p) == d.Entry(p);
      }
    }
  }

  /** Crash safety, exactly: at any moment of a run, a name survives every crash with a whole object or with none if and
      only if every file the name may return to has been flushed. */
  lemma CrashSafeExactly(s: State, name: string)
    requires Inv(s) && Dependable(s, name)
    ensures (forall after :: CrashOf(s.disk, after) ==> SurvivesAs(s, after, name)) <==> Flushed(s.disk, name)
  {
    hide WriterOk, ReaderOk, Complete, Apart;
    assert NameOk(s, name);
    if Flushed(s.disk, name) {
      forall after | CrashOf(s.disk, after)
        ensures SurvivesAs(s, after, name)
      {
        assert after.Entry(Object(name)) in s.disk.MayBe(Object(name));
      }
    } else {
      var i: nat :| Some(i) in s.disk.MayBe(Object(name)) && !(i in s.disk.files && s.disk.files[i].synced);
      var n := AnotherString(s.initial + s.made);
      var junk := Zeros(n);
      TornIsACrash(s.disk, name, i, junk);
      var after := Torn(s.disk, name, i, junk);
      assert Held(after, name) == Some(junk);
      assert (name, junk) !in s.initial + s.made;
    }
  }

  /** Names that are only written with `sync` meet the condition at every moment of every run, because the file is
      flushed before it is renamed. */
  lemma DurableNamesSurvive(states: seq<State>, steps: seq<Step>, i: nat, name: string, after: Disk)
    requires Run(states, steps) && i < |states| && name in states[0].durable && CrashOf(states[i].disk, after)
    ensures Flushed(states[i].disk, name) && SurvivesAs(states[i], after, name)
  {
    hide Run, Ready, WriterOk, ReaderOk, Complete, Apart, CrashOf, SurvivesAs;
    RunKeeps(states, steps, i);
    MadeByFinishing(states, steps, i);
    assert NameOk(states[i], name);
    CrashSafeExactly(states[i], name);
  }

  /** The bytes behind an entry's value. */
  function Behind(d: Disk, e: Option<nat>): Option<seq<byte>> {
    if e.Some? && e.value in d.files then Some(d.files[e.value].bytes) else None
  }

  /** Every value the name may return to is one it held between the states `k` and `i`. */
  ghost predicate Remembered(states: seq<State>, k: nat, i: nat, name: string)
    requires k <= i < |states|
  {
    forall e :: e in states[i].disk.MayBe(Object(name)) ==>
      exists j :: k <= j <= i && Behind(states[i].disk, e) == Held(states[j].disk, name)
  }

  lemma {:induction false} ValuesAreRemembered(states: seq<State>, steps: seq<Step>, k: nat, i: nat, name: string)
    requires Run(states, steps) && k <= i < |states|
    requires states[k].disk.MayBe(Object(name)) == {states[k].disk.Entry(Object(name))}
    requires forall j :: k <= j < i ==> !steps[j].Crash?
    ensures Remembered(states, k, i, name)
    decreases i - k
  {
    if k == i {
      assert Behind(states[i].disk, states[i].disk.Entry(Object(name))) == Held(states[k].disk, name);
    } else {
      ValuesAreRemembered(states, steps, k, i - 1, name);
      RunKeeps(states, steps, i - 1);
      var s, step, s' := states[i - 1], steps[i - 1], states[i];
      assert Moved(s, step, s');
      OneMoreValue(s, step, name);
      hide Run, Moved, Inv, Next, Enabled, Ready, Disk.MayBe;
      forall e | e in s'.disk.MayBe(Object(name))
        ensures exists j :: k <= j <= i && Behind(s'.disk, e) == Held(states[j].disk, name)
      {
        if e in s.disk.MayBe(Object(name)) {
          var j :| k <= j <= i - 1 && Behind(s.disk, e) == Held(states[j].disk, name);
          if e.Some? {
            ObjectFilesStay(s, step, name, e.value);
          }
          assert Behind(s'.disk, e) == Held(states[j].disk, name);
        } else {
          assert Behind(s'.disk, e) == Held(states[i].disk, name);
        }
      }
    }
  }

  /** A crash takes a durable name back to a whole value it held at some moment since the directory was last known to be
      flushed, never to a mixture and never further. */
  lemma CrashTakesBack(states: seq<State>, steps: seq<Step>, k: nat, i: nat, name: string, after: Disk) returns (j: nat)
    requires Run(states, steps) && k <= i < |states| && name in states[0].durable
    requires states[k].disk.MayBe(Object(name)) == {states[k].disk.Entry(Object(name))}
    requires forall j :: k <= j < i ==> !steps[j].Crash?
    requires CrashOf(states[i].disk, after)
    ensures k <= j <= i && Held(after, name) == Held(states[j].disk, name)
  {
    ValuesAreRemembered(states, steps, k, i, name);
    DurableNamesSurvive(states, steps, i, name, after);
    hide Run, SurvivesAs;
    var e := after.Entry(Object(name));
    assert e in states[i].disk.MayBe(Object(name));
    j :| k <= j <= i && Behind(states[i].disk, e) == Held(states[j].disk, name);
    assert Held(after, name) == Behind(states[i].disk, e);
  }

  /** What the last flush of the directory is for: what is on stable storage is still there after any crash. */
  lemma StableNamesSurvive(d: Disk, after: Disk, name: string)
    requires OnStableStorage(d, name) && CrashOf(d, after)
    ensures Held(after, name) == Held(d, name) && Held(after, name).Some? && OnStableStorage(after, name)
  {
    assert after.Entry(Object(name)) in d.MayBe(Object(name));
  }

  /** Crash safety of an atomic update: while at most one update, at `p`, is published under the name since the
      directory was flushed, a crash at any moment `i`, before the rename or after it, leaves the whole old object, or,
      only after the rename, the whole new one. */
  lemma OldOrNew(states: seq<State>, steps: seq<Step>, k: nat, p: nat, i: nat, name: string, after: Disk)
    requires Run(states, steps) && k <= i < |states| && k <= p && name in states[0].durable
    requires states[k].disk.MayBe(Object(name)) == {states[k].disk.Entry(Object(name))}
    requires forall j :: k <= j < i ==> !steps[j].Crash? && (Publishes(states[j], steps[j], name) ==> j == p)
    requires CrashOf(states[i].disk, after)
    ensures || Held(after, name) == Held(states[k].disk, name)
            || (p < i && Publishes(states[p], steps[p], name)
                && Held(after, name) == Some(states[p].writers[steps[p].w].Image()))
  {
    var j := CrashTakesBack(states, steps, k, i, name, after);
    hide CrashOf, Disk.MayBe, Held;
    if j <= p || !Publishes(states[p], steps[p], name) {
      HeldUntilPublished(states, steps, k, j, name);
    } else {
      HeldUntilPublished(states, steps, p + 1, j, name);
      RunKeeps(states, steps, p);
      assert Moved(states[p], steps[p], states[p + 1]);
      hide Next, Enabled, Ready, Inv, Init, IsObject;
      OnlyPublishingChangesNames(states[p], steps[p], name);
    }
  }

  // ---- temporary files --------------------------------------------------------------------------

  ghost function Temps(s: State): set<Path> {
    set w | w in s.writers :: s.writers[w].temp
  }

  /** The temporary entries are those of the live writers and those left behind, and no others. */
  ghost predicate Accounted(s: State) {
    && (forall p: Path :: p.Temp? ==> (p in s.disk.dir <==> p in Temps(s) || p in s.left))
    && Temps(s) !! s.left
  }

  /** A step that neither crashes nor is refused a removal or a rename. */
  predicate CleansUp(step: Step) {
    !step.Crash? && !step.PublishFails? && (step.Vanish? ==> step.removed)
  }

  lemma TempsWithout(s: State, s': State, w: nat)
    requires Inv(s) && w in s.writers && s'.writers == s.writers - {w}
    ensures Temps(s') == Temps(s) - {s.writers[w].temp} && s.writers[w].temp in Temps(s)
  {
    hide WriterOk, NameOk, ReaderOk, Complete;
    assert forall v :: v in s'.writers <==> v in s.writers && v != w;
  }

  lemma TempsWith(s: State, s': State, w: nat)
    requires w in s'.writers && s'.writers == s.writers[w := s'.writers[w]]
    requires w in s.writers ==> s.writers[w].temp == s'.writers[w].temp
    ensures Temps(s') == Temps(s) + {s'.writers[w].temp} && (w in s.writers ==> s'.writers[w].temp in Temps(s))
  {
    assert forall v :: v in s'.writers <==> v in s.writers || v == w;
    assert forall v :: v in s.writers && v != w ==> s'.writers[v] == s.writers[v];
  }

  /** The directory's temporary entries, the writers' and the abandoned ones move together. */
  lemma AccountsMove(s: State, s': State, gone: set<Path>, come: set<Path>, left: set<Path>)
    requires Accounted(s) && come !! s.left && left <= gone <= Temps(s)
    requires Temps(s') == Temps(s) - gone + come && s'.left == s.left + left
    requires forall p: Path :: p.Temp? ==> (p in s'.disk.dir <==> (p in s.disk.dir && p !in gone - left) || p in come)
    requires come !! left
    ensures Accounted(s')
  {
    hide Temps;
  }

  lemma QuietStepAccounts(s: State, step: Step)
    requires Inv(s) && Ready(s) && Enabled(s, step) && Accounted(s)
    requires !step.Begin? && !step.Publish? && !step.PublishFails? && !step.Vanish? && !step.Crash?
    ensures Accounted(Next(s, step)) && Next(s, step).left == s.left
  {
    hide Inv, Overwrite, CanDecide, CanBegin, CrashOf, ContentFrom, Prefix, Temps, Accounted;
    var s' := Next(s, step);
    if step.SyncDirectory? || step.Open? || step.Close? {
      SameTemps(s, s');
    } else {
      TempsWith(s, s', step.w);
    }
    AccountsMove(s, s', {}, {}, {});
  }

  lemma StepAccounts(s: State, step: Step)
    requires Inv(s) && Ready(s) && Enabled(s, step) && Accounted(s)
    ensures Accounted(Next(s, step))
    ensures CleansUp(step) ==> Next(s, step).left == s.left
  {
    hide Inv, Overwrite, CanDecide, CrashOf, ContentFrom, Prefix, Temps;
    EntriesOfWriters(s);
    var s' := Next(s, step);
    match step {
      case Begin(w, x, _) =>
        TempsWith(s, s', w);
        hide Accounted;
        assert x.temp !in s.left by { LeftIsThere(s); }
        AccountsMove(s, s', {}, {x.temp}, {});
      case Publish(w) =>
        TempsWithout(s, s', w);
        hide Accounted;
        AccountsMove(s, s', {s.writers[w].temp}, {}, {});
      case PublishFails(w) =>
        TempsWithout(s, s', w);
        hide Accounted;
        AccountsMove(s, s', {s.writers[w].temp}, {}, {s.writers[w].temp});
      case Vanish(w, removed) =>
        TempsWithout(s, s', w);
        hide Accounted;
        AccountsMove(s, s', {s.writers[w].temp}, {}, if removed then {} else {s.writers[w].temp});
      case Crash(_) => NoTemps(s');
      case _ => QuietStepAccounts(s, step);
    }
  }

  lemma LeftIsThere(s: State)
    requires Accounted(s)
    ensures forall p: Path :: p.Temp? && p in s.left ==> p in s.disk.dir
  {
  }

  lemma NoTemps(s: State)
    requires s.writers == map[]
    ensures Temps(s) == {}
  {
  }

  lemma SameTemps(s: State, s': State)
    requires s'.writers == s.writers
    ensures Temps(s') == Temps(s)
  {
  }

  /** Temporary files are conserved: at every moment of every run the temporary entries are those of the live writers,
      which are pairwise distinct, and those left behind; and nothing is left behind but by a crash, a refused rename
      or a refused removal. */
  lemma {:induction false} TempsAreConserved(states: seq<State>, steps: seq<Step>, i: nat)
    requires Run(states, steps) && i < |states|
    ensures Accounted(states[i]) && Apart(states[i])
    ensures (forall j :: 0 <= j < i ==> CleansUp(steps[j])) ==> states[i].left == states[0].left
  {
    hide Next, Enabled, Ready, WriterOk, NameOk, ReaderOk, Complete;
    RunKeeps(states, steps, i);
    if i > 0 {
      TempsAreConserved(states, steps, i - 1);
      RunKeeps(states, steps, i - 1);
      assert Moved(states[i - 1], steps[i - 1], states[i]);
      hide Accounted, Inv;
      StepAccounts(states[i - 1], steps[i - 1]);
    }
  }
}
