/** Every run of the load protocol: any number of messages are loaded at the same time, one
    locked step after another, while a worker deletes the files that are queued. */
module LoadProtocol {
  import opened Store

  datatype Message = Message(ts: Time, settings: seq<Setting>)

  type Files = map<File, Message>

  /** How far the load of a file is. `Queueing` is between giving up the lock and sending. */
  datatype Phase = Waiting | Loading(done: nat) | Queueing | Finished

  /** The world: the store, the loaders, the worker, and the history of the queue. */
  datatype World = World(
    store: State,
    phases: map<File, Phase>,
    deleting: set<File>,      // removed from disk, statistics not yet
    everQueued: seq<File>,
    forgotten: set<File>,
    crashed: bool)

  datatype Event =
    | Start(f: File)
    | Take(f: File)          // one setting
    | End(f: File)           // the locked part
    | Queue(f: File)         // the send after the lock is given up
    | Remove(gone: bool)     // the worker takes a file and tries to remove it from disk
    | Forget(f: File)        // the worker drops the statistics of a removed file

  function Initial(files: Files): World {
    World(EMPTY, map f | f in files :: Waiting, {}, [], {}, false)
  }

  predicate Enabled(files: Files, w: World, e: Event) {
    && !w.crashed
    && match e
       case Start(f) => f in w.phases && w.phases[f] == Waiting
       case Take(f) => f in w.phases && f in files && w.phases[f].Loading? && w.phases[f].done < |files[f].settings|
       case End(f) => f in w.phases && f in files && w.phases[f] == Loading(|files[f].settings|)
       case Queue(f) => f in w.phases && w.phases[f] == Queueing
       case Remove(_) => w.store.deletionQueue != []
       case Forget(f) => f in w.deleting
  }

  /** The files that an update queues. */
  function NewlyQueued(before: State, after: State): seq<File> {
    if |before.deletionQueue| <= |after.deletionQueue| then after.deletionQueue[|before.deletionQueue|..] else []
  }

  /** One step. The program crashes where it looks up statistics that are not there. */
  function Step(files: Files, w: World, e: Event): World
    requires Enabled(files, w, e)
  {
    match e
    case Start(f) =>
      w.(store := Started(w.store, f), phases := w.phases[f := Loading(0)])
    case Take(f) =>
      var v := files[f].settings[w.phases[f].done];
      if !FindsStats(w.store, v.name, files[f].ts, f) then w.(crashed := true) else
      var s := Updated(w.store, v.name, v, files[f].ts, f).0;
      w.(store := s, phases := w.phases[f := Loading(w.phases[f].done + 1)],
         everQueued := w.everQueued + NewlyQueued(w.store, s))
    case End(f) =>
      if f !in w.store.usage then w.(crashed := true) else
      w.(store := Ended(w.store, f),
         phases := w.phases[f := if w.store.usage[f].liveReferences == 0 then Queueing else Finished])
    case Queue(f) =>
      w.(store := w.store.(deletionQueue := w.store.deletionQueue + [f]),
         phases := w.phases[f := Finished], everQueued := w.everQueued + [f])
    case Remove(gone) =>
      var f := w.store.deletionQueue[0];
      w.(store := w.store.(deletionQueue := w.store.deletionQueue[1..]),
         deleting := w.deleting + if gone then {f} else {})
    case Forget(f) =>
      w.(store := Forgotten(w.store, f), deleting := w.deleting - {f}, forgotten := w.forgotten + {f})
  }

  ghost predicate IsRun(files: Files, es: seq<Event>)
    decreases |es|, 0
  {
    es == [] || (IsRun(files, es[..|es| - 1]) && Enabled(files, After(files, es[..|es| - 1]), es[|es| - 1]))
  }

  ghost function After(files: Files, es: seq<Event>): World
    requires IsRun(files, es)
    decreases |es|, 1
  {
    if es == [] then Initial(files) else Step(files, After(files, es[..|es| - 1]), es[|es| - 1])
  }

  // ---------- What holds in every reachable state ----------

  function Progress(files: Files, w: World, f: File): nat
    requires f in files && f in w.phases
  {
    match w.phases[f]
    case Waiting => 0
    case Loading(done) => done
    case _ => |files[f].settings|
  }

  /** Which files have statistics, and whether they are being loaded. */
  ghost predicate UsageRight(files: Files, w: World) {
    && w.phases.Keys == files.Keys
    && (forall f :: f in w.phases && w.phases[f].Loading? ==> w.phases[f].done <= |files[f].settings|)
    && (forall f :: f in w.store.usage ==> f in w.phases && w.phases[f] != Waiting && f !in w.forgotten)
    && (forall f :: f in w.phases && w.phases[f] != Waiting && f !in w.forgotten ==> f in w.store.usage)
    && (forall f :: f in w.store.usage ==> w.store.usage[f].loadingInProgress == w.phases[f].Loading?)
  }

  ghost predicate NoDuplicates(s: seq<File>) {
    forall i, j :: 0 <= i < j < |s| ==> s[i] != s[j]
  }

  /** A file has been queued exactly when it has finished loading and no key refers to it,
      and at most once; the worker only ever sees queued files. */
  ghost predicate QueueRight(w: World) {
    && NoDuplicates(w.everQueued)
    && (forall f :: f in w.phases ==>
          (f in w.everQueued <==> w.phases[f] == Finished && KeysOf(w.store.values, f) == {}))
    && (forall f :: f in w.phases && w.phases[f] == Queueing ==> KeysOf(w.store.values, f) == {})
    && (forall f :: f in w.everQueued ==> f in w.phases)
    && |w.store.deletionQueue| <= |w.everQueued|
    && w.store.deletionQueue == w.everQueued[|w.everQueued| - |w.store.deletionQueue|..]
    && (forall f :: f in w.deleting || f in w.forgotten ==> f in w.everQueued)
  }

  ghost predicate Inv(files: Files, w: World) {
    && !w.crashed
    && CountsRight(w.store)
    && UsageRight(files, w)
    && QueueRight(w)
  }

  lemma InitialInv(files: Files)
    ensures Inv(files, Initial(files))
  {
    var w := Initial(files);
    assert forall f :: f in files ==> KeysOf(w.store.values, f) == {};
  }

  lemma EmptyIsZero(s: set<Key>)
    ensures |s| == 0 <==> s == {}
  {}

  /** The counts stay right where neither the counts nor the values change. */
  lemma SameCounts(s: State, s': State)
    requires CountsRight(s) && s'.values == s.values && s'.globalLastUpdated == s.globalLastUpdated
    requires s'.usage.Keys <= s.usage.Keys
    requires forall f :: f in s'.usage ==> s'.usage[f].liveReferences == s.usage[f].liveReferences
    requires forall f :: f in s.usage && f !in s'.usage ==> KeysOf(s.values, f) == {}
    ensures CountsRight(s')
  {
    forall k | k in s'.values ensures s'.values[k].sourceFile in s'.usage {
      assert k in KeysOf(s.values, s.values[k].sourceFile);
    }
  }

  lemma StartUsage(files: Files, w: World, f: File)
    requires Inv(files, w) && Enabled(files, w, Start(f))
    ensures UsageRight(files, Step(files, w, Start(f)))
  {
    hide KeysOf, NoDuplicates, CountsRight;
  }

  lemma StartInv(files: Files, w: World, f: File)
    requires Inv(files, w) && Enabled(files, w, Start(f))
    ensures Inv(files, Step(files, w, Start(f)))
  {
    hide KeysOf, NoDuplicates, CountsRight, UsageRight;
    StartKeepsCounts(w.store, f);
    StartUsage(files, w, f);
  }

  lemma NoReferences(s: State, f: File)
    requires CountsRight(s) && f in s.usage
    ensures s.usage[f].liveReferences == 0 <==> KeysOf(s.values, f) == {}
  {
    hide KeysOf;
    EmptyIsZero(KeysOf(s.values, f));
  }

  lemma EndUsage(files: Files, w: World, f: File)
    requires Inv(files, w) && Enabled(files, w, End(f))
    ensures UsageRight(files, Step(files, w, End(f)))
  {
    hide KeysOf, QueueRight, CountsRight;
  }

  lemma EndInv(files: Files, w: World, f: File)
    requires Inv(files, w) && Enabled(files, w, End(f))
    ensures Inv(files, Step(files, w, End(f)))
  {
    hide KeysOf, NoDuplicates, CountsRight, UsageRight;
    LoadingHasStats(files, w, f);
    NoReferences(w.store, f);
    EndKeepsCounts(w.store, f, w.store.deletionQueue);
    EndUsage(files, w, f);
  }

  lemma QueueInv(files: Files, w: World, f: File)
    requires Inv(files, w) && Enabled(files, w, Queue(f))
    ensures Inv(files, Step(files, w, Queue(f)))
  {
    hide KeysOf, NoDuplicates, CountsRight;
    var w' := Step(files, w, Queue(f));
    SameCounts(w.store, w'.store);
    NoneQueuedTwice(w.everQueued, [f]);
    var n := |w.everQueued| - |w.store.deletionQueue|;
    assert w'.everQueued[n..] == w.everQueued[n..] + [f];
  }

  lemma NoneQueuedTwice(queued: seq<File>, released: seq<File>)
    requires NoDuplicates(queued) && |released| <= 1 && (released != [] ==> released[0] !in queued)
    ensures NoDuplicates(queued + released)
  {}

  lemma RemoveInv(files: Files, w: World, gone: bool)
    requires Inv(files, w) && Enabled(files, w, Remove(gone))
    ensures Inv(files, Step(files, w, Remove(gone)))
  {
    hide KeysOf, NoDuplicates, CountsRight;
    SameCounts(w.store, Step(files, w, Remove(gone)).store);
    var n := |w.everQueued| - |w.store.deletionQueue|;
    assert w.everQueued[n] == w.store.deletionQueue[0];
    assert w.everQueued[n + 1..] == w.everQueued[n..][1..];
  }

  lemma ForgetInv(files: Files, w: World, f: File)
    requires Inv(files, w) && Enabled(files, w, Forget(f))
    ensures Inv(files, Step(files, w, Forget(f)))
  {
    hide KeysOf, NoDuplicates, CountsRight;
    SameCounts(w.store, Forgotten(w.store, f));
  }

  /** The file that an update which is taken releases for good, if there is one. */
  function LastReleased(s: State, k: Key): (released: seq<File>)
    ensures |released| <= 1
    ensures released != [] ==> released[0] in s.usage && !s.usage[released[0]].loadingInProgress
  {
    if k in s.values && s.values[k].sourceFile in s.usage
      && s.usage[s.values[k].sourceFile] == Stats(false, 1) then [s.values[k].sourceFile] else []
  }

  /** A file is released for good exactly when it is not the new source and loses its only key. */
  lemma ReleasedHasNoKeys(s: State, k: Key, e: Entry)
    requires CountsRight(s) && e.sourceFile in s.usage && s.usage[e.sourceFile].loadingInProgress
    ensures LastReleased(s, k) != [] ==>
              var g := LastReleased(s, k)[0];
              g != e.sourceFile && KeysOf(s.values, g) != {} && KeysOf(s.values[k := e], g) == {}
    ensures forall g :: g in s.usage && !s.usage[g].loadingInProgress && [g] != LastReleased(s, k) ==>
              (KeysOf(s.values[k := e], g) == {} <==> KeysOf(s.values, g) == {})
  {
    forall g ensures g in s.usage && !s.usage[g].loadingInProgress ==>
      (KeysOf(s.values[k := e], g) == {} <==> KeysOf(s.values, g) == {} || [g] == LastReleased(s, k))
    {
      if g in s.usage && !s.usage[g].loadingInProgress {
        CountAfterUpdate(s.values, k, e, g);
        EmptyIsZero(KeysOf(s.values, g));
        EmptyIsZero(KeysOf(s.values[k := e], g));
        assert k in s.values && s.values[k].sourceFile == g ==> k in KeysOf(s.values, g);
      }
    }
    if LastReleased(s, k) != [] {
      assert k in KeysOf(s.values, s.values[k].sourceFile);
    }
  }

  lemma LoadingHasStats(files: Files, w: World, f: File)
    requires Inv(files, w) && f in w.phases && w.phases[f].Loading?
    ensures f in w.store.usage && w.store.usage[f].loadingInProgress && f !in w.everQueued
  {
    hide CountsRight, KeysOf, NoDuplicates;
  }

  predicate SameFlags(usage: map<File, Stats>, usage': map<File, Stats>) {
    usage'.Keys == usage.Keys && forall f :: f in usage ==> usage'[f].loadingInProgress == usage[f].loadingInProgress
  }

  /** An update, field by field. */
  lemma UpdateChanges(s: State, k: Key, v: Setting, ts: Time, f: File)
    requires FindsStats(s, k, ts, f)
    ensures var s', kept := Updated(s, k, v, ts, f).0, KeepsOld(s, k, ts);
      && s'.values == (if kept then s.values else s.values[k := Entry(v, f, ts)])
      && s'.deletionQueue == s.deletionQueue + (if kept then [] else LastReleased(s, k))
      && SameFlags(s.usage, s'.usage)
      && s'.globalLastUpdated == if ts > s.globalLastUpdated then ts else s.globalLastUpdated
  {}

  /** What one setting that is taken in changes; `kept` says that the value there was newer. */
  ghost predicate TakesIn(w: World, w': World, k: Key, e: Entry, kept: bool) {
    var f, released := e.sourceFile, if kept then [] else LastReleased(w.store, k);
    && f in w.phases && w.phases[f].Loading?
    && w'.phases == w.phases[f := Loading(w.phases[f].done + 1)]
    && w'.crashed == w.crashed && w'.deleting == w.deleting && w'.forgotten == w.forgotten
    && kept == KeepsOld(w.store, k, e.lastUpdated)
    && w'.store.values == (if kept then w.store.values else w.store.values[k := e])
    && w'.store.deletionQueue == w.store.deletionQueue + released
    && w'.everQueued == w.everQueued + released
    && SameFlags(w.store.usage, w'.store.usage) && CountsRight(w'.store)
    && w'.store.globalLastUpdated ==
       if e.lastUpdated > w.store.globalLastUpdated then e.lastUpdated else w.store.globalLastUpdated
  }

  lemma NewlyQueuedAre(before: State, after: State, released: seq<File>)
    requires after.deletionQueue == before.deletionQueue + released
    ensures NewlyQueued(before, after) == released
  {}

  lemma TakeStep(files: Files, w: World, f: File)
    requires Inv(files, w) && Enabled(files, w, Take(f))
    ensures var v := files[f].settings[w.phases[f].done];
      TakesIn(w, Step(files, w, Take(f)), v.name, Entry(v, f, files[f].ts), KeepsOld(w.store, v.name, files[f].ts))
  {
    hide KeysOf, QueueRight, CountsRight, FindsStats, Updated, NoDuplicates;
    LoadingHasStats(files, w, f);
    var v, ts := files[f].settings[w.phases[f].done], files[f].ts;
    hide UsageRight;
    hide LastReleased, KeepsOld, NewlyQueued, SameFlags;
    UpdateKeepsCounts(w.store, v.name, v, ts, f);
    UpdateChanges(w.store, v.name, v, ts, f);
    NewlyQueuedAre(w.store, Updated(w.store, v.name, v, ts, f).0,
                   if KeepsOld(w.store, v.name, ts) then [] else LastReleased(w.store, v.name));
  }

  lemma UsageAfterTake(files: Files, w: World, w': World, k: Key, e: Entry, kept: bool)
    requires UsageRight(files, w) && TakesIn(w, w', k, e, kept)
    requires w.phases[e.sourceFile].done < |files[e.sourceFile].settings|
    ensures UsageRight(files, w')
  {
    hide KeepsOld, LastReleased, CountsRight;
  }

  lemma TakeInv(files: Files, w: World, f: File)
    requires Inv(files, w) && Enabled(files, w, Take(f))
    ensures Inv(files, Step(files, w, Take(f)))
  {
    var v := files[f].settings[w.phases[f].done];
    var w', e := Step(files, w, Take(f)), Entry(v, f, files[f].ts);
    hide Step, QueueRight, KeepsOld, CountsRight, UsageRight, LastReleased, SameFlags;
    TakeStep(files, w, f);
    UsageAfterTake(files, w, w', v.name, e, KeepsOld(w.store, v.name, files[f].ts));
    QueueAfterTake(files, w, w', v.name, e, KeepsOld(w.store, v.name, files[f].ts));
  }

  /** Whether a file has been queued after one setting was taken in. */
  lemma QueuedAfterTake(files: Files, w: World, k: Key, e: Entry, g: File)
    requires Inv(files, w) && g in w.phases
    requires e.sourceFile in w.phases && w.phases[e.sourceFile].Loading?
    ensures var queued, keys := w.everQueued + LastReleased(w.store, k), KeysOf(w.store.values[k := e], g);
      && (g in queued <==> g != e.sourceFile && w.phases[g] == Finished && keys == {})
      && (w.phases[g] == Queueing ==> keys == {})
    ensures forall r :: r in LastReleased(w.store, k) ==> r !in w.everQueued && r in w.phases
  {
    LoadingHasStats(files, w, e.sourceFile);
    ReleasedHasNoKeys(w.store, k, e);
    KeysAfterUpdate(w.store.values, k, e, g);
    hide KeysOf, NoDuplicates, LastReleased, CountsRight;
    var released := LastReleased(w.store, k);
    assert forall r :: r in released ==> r == released[0];
  }

  lemma QueueAfterTake(files: Files, w: World, w': World, k: Key, e: Entry, kept: bool)
    requires Inv(files, w) && TakesIn(w, w', k, e, kept)
    ensures QueueRight(w')
  {
    hide KeysOf, NoDuplicates, LastReleased, CountsRight, UsageRight, KeepsOld, SameFlags;
    var released := if kept then [] else LastReleased(w.store, k);
    var n := |w.everQueued| - |w.store.deletionQueue|;
    assert w'.everQueued[n..] == w.everQueued[n..] + released;
    QueuedAfterTake(files, w, k, e, e.sourceFile);
    NoneQueuedTwice(w.everQueued, released);
    if kept {
      LoadingHasStats(files, w, e.sourceFile);
      assert w'.everQueued == w.everQueued;
    } else {
      forall g | g in w'.phases
        ensures g in w'.everQueued <==> w'.phases[g] == Finished && KeysOf(w'.store.values, g) == {}
        ensures w'.phases[g] == Queueing ==> KeysOf(w'.store.values, g) == {}
      {
        QueuedAfterTake(files, w, k, e, g);
      }
    }
  }

  lemma {:induction false} ReachableInv(files: Files, es: seq<Event>)
    requires IsRun(files, es)
    ensures Inv(files, After(files, es))
  {
    hide Inv, Step;
    if es == [] {
      InitialInv(files);
    } else {
      var w := After(files, es[..|es| - 1]);
      ReachableInv(files, es[..|es| - 1]);
      StepInv(files, w, es[|es| - 1]);
    }
  }

  lemma StepInv(files: Files, w: World, e: Event)
    requires Inv(files, w) && Enabled(files, w, e)
    ensures Inv(files, Step(files, w, e))
  {
    hide Inv, Step;
    match e
    case Start(f) => StartInv(files, w, f);
    case Take(f) => TakeInv(files, w, f);
    case End(f) => EndInv(files, w, f);
    case Queue(f) => QueueInv(files, w, f);
    case Remove(gone) => RemoveInv(files, w, gone);
    case Forget(f) => ForgetInv(files, w, f);
  }

  // ---------- What every run keeps ----------

  predicate Loaded(w: World, f: File) {
    f in w.phases && w.phases[f] in {Queueing, Finished}
  }

  /** From one state to a later one: loaded files stay loaded and gain no reference, what was
      queued stays queued, and no key goes away or gets an older time. */
  ghost predicate Moved(w: World, w': World) {
    && (forall f :: Loaded(w, f) ==> Loaded(w', f) && KeysOf(w'.store.values, f) <= KeysOf(w.store.values, f))
    && w.everQueued <= w'.everQueued
    && w.forgotten <= w'.forgotten
    && (forall k :: k in w.store.values ==>
          k in w'.store.values && w.store.values[k].lastUpdated <= w'.store.values[k].lastUpdated)
    && w.store.globalLastUpdated <= w'.store.globalLastUpdated
  }

  lemma MovesByTake(w: World, w': World, k: Key, e: Entry, kept: bool)
    requires TakesIn(w, w', k, e, kept)
    ensures Moved(w, w')
  {
    hide LastReleased, CountsRight, SameFlags;
    forall g | Loaded(w, g) ensures KeysOf(w'.store.values, g) <= KeysOf(w.store.values, g) {
      KeysAfterUpdate(w.store.values, k, e, g);
    }
  }

  lemma StepMoves(files: Files, w: World, e: Event)
    requires Inv(files, w) && Enabled(files, w, e)
    ensures Moved(w, Step(files, w, e))
  {
    hide NoDuplicates, KeysOf, QueueRight, CountsRight, KeepsOld, TakesIn, UsageRight;
    if e.Take? {
      hide Step, Moved;
      TakeStep(files, w, e.f);
      var v := files[e.f].settings[w.phases[e.f].done];
      MovesByTake(w, Step(files, w, e), v.name, Entry(v, e.f, files[e.f].ts), KeepsOld(w.store, v.name, files[e.f].ts));
    } else {
      assert Step(files, w, e).store.values == w.store.values;
    }
  }

  lemma {:induction false} PrefixIsRun(files: Files, es: seq<Event>, n: nat)
    requires IsRun(files, es) && n <= |es|
    ensures IsRun(files, es[..n])
  {
    if n < |es| {
      PrefixIsRun(files, es[..|es| - 1], n);
      assert es[..|es| - 1][..n] == es[..n];
    } else {
      assert es[..n] == es;
    }
  }

  /** Along every run: once a file is loaded its keys only ever become fewer; a queued file stays
      queued; no key's time and no latest time ever goes down. */
  lemma {:induction false} RunsMove(files: Files, es: seq<Event>, n: nat)
    requires IsRun(files, es) && n <= |es|
    ensures IsRun(files, es[..n]) && Moved(After(files, es[..n]), After(files, es))
  {
    hide Step, Inv;
    PrefixIsRun(files, es, n);
    if n == |es| {
      assert es[..n] == es;
    } else {
      var before := es[..|es| - 1];
      RunsMove(files, before, n);
      assert before[..n] == es[..n];
      ReachableInv(files, before);
      StepMoves(files, After(files, before), es[|es| - 1]);
      MovedTwice(After(files, es[..n]), After(files, before), After(files, es));
    }
  }

  lemma MovedTwice(a: World, b: World, c: World)
    requires Moved(a, b) && Moved(b, c)
    ensures Moved(a, c)
  {
    hide KeysOf;
  }

  /** In every reachable state no lookup of statistics has failed; a file has been queued exactly
      when it has finished loading and no key refers to it, and then once, and leaves the queue in
      that order; its count is the number of keys that refer to it, and is there from its start until
      it is forgotten; the latest time bounds all times; and no key refers to a file that is queued,
      being deleted or forgotten. */
  lemma DeletionIsExact(files: Files, es: seq<Event>)
    requires IsRun(files, es)
    ensures var w := After(files, es);
      && !w.crashed && NoDuplicates(w.everQueued)
      && w.phases.Keys == files.Keys
      && (forall f :: f in files ==>
            (f in w.everQueued <==> w.phases[f] == Finished && KeysOf(w.store.values, f) == {}))
      && (forall f :: f in files ==>
            (f in w.store.usage <==> w.phases[f] != Waiting && f !in w.forgotten))
      && (forall f :: f in w.store.usage ==> w.store.usage[f].liveReferences == |KeysOf(w.store.values, f)|)
      && |w.store.deletionQueue| <= |w.everQueued|
      && w.store.deletionQueue == w.everQueued[|w.everQueued| - |w.store.deletionQueue|..]
      && (forall k :: k in w.store.values ==>
            var f := w.store.values[k].sourceFile;
            && f !in w.everQueued && f !in w.store.deletionQueue && f !in w.deleting && f !in w.forgotten
            && f in w.store.usage && w.store.values[k].lastUpdated <= w.store.globalLastUpdated)
  {
    hide Step;
    ReachableInv(files, es);
    var w := After(files, es);
    forall k | k in w.store.values
      ensures w.store.values[k].sourceFile !in w.everQueued && w.store.values[k].sourceFile !in w.store.deletionQueue
    {
      assert k in KeysOf(w.store.values, w.store.values[k].sourceFile);
      assert w.store.values[k].sourceFile !in w.everQueued;
    }
  }

  /** A queued file is final: from then on, no key ever refers to it. */
  lemma QueuedForGood(files: Files, es: seq<Event>, n: nat, f: File)
    requires IsRun(files, es) && n <= |es|
    requires IsRun(files, es[..n]) && f in After(files, es[..n]).everQueued
    ensures f in After(files, es).everQueued && KeysOf(After(files, es).store.values, f) == {}
  {
    hide Step;
    RunsMove(files, es, n);
    ReachableInv(files, es);
  }

  // ---------- The worker ----------

  /** The worker has taken the file from the queue and removed it from disk. */
  ghost predicate RemovedIn(files: Files, es: seq<Event>, f: File)
    requires IsRun(files, es)
  {
    es != [] &&
    var before := es[..|es| - 1];
    RemovedIn(files, before, f) || (es[|es| - 1] == Remove(true) && After(files, before).store.deletionQueue[0] == f)
  }

  ghost predicate WorkerRight(w: World, f: File, removed: bool, forgotten: bool) {
    && (f in w.deleting || f in w.forgotten <==> removed)
    && (f in w.forgotten <==> forgotten)
    && !(f in w.deleting && f in w.forgotten)
    && (removed ==> f !in w.store.deletionQueue)
  }

  /** The worker forgets only what it has removed, each file at most once, and works on nothing that is
      still queued. */
  lemma {:induction false} WorkerIsExact(files: Files, es: seq<Event>, f: File)
    requires IsRun(files, es)
    ensures WorkerRight(After(files, es), f, RemovedIn(files, es, f), Forget(f) in es)
  {
    hide Inv, Step, QueueRight, WorkerRight;
    if es == [] {
      NothingWorkedOn(files, f);
    } else {
      hide IsRun, After;
      var before, e := es[..|es| - 1], es[|es| - 1];
      assert es == before + [e];
      WorkerIsExact(files, before, f);
      ReachableInv(files, before);
      ReachableInv(files, es);
      WorkerGoesOn(files, After(files, before), e, f, RemovedIn(files, before, f), Forget(f) in before);
    }
  }

  lemma NothingWorkedOn(files: Files, f: File)
    ensures WorkerRight(Initial(files), f, false, false)
  {}

  lemma {:induction false} WorkerGoesOn(files: Files, w: World, e: Event, f: File, removed: bool, forgotten: bool)
    requires Inv(files, w) && Enabled(files, w, e) && Inv(files, Step(files, w, e))
    requires WorkerRight(w, f, removed, forgotten)
    ensures WorkerRight(Step(files, w, e), f,
                        removed || (e == Remove(true) && w.store.deletionQueue[0] == f), forgotten || e == Forget(f))
  {
    hide Inv, Step, QueueRight;
    var w' := Step(files, w, e);
    WorkerStep(files, w, e);
    QueueMoves(files, w, e);
    InvQueue(files, w);
    InvQueue(files, w');
    if removed {
      NotQueuedAgain(w, w', f);
    }
    if e.Remove? {
      RemoveStep(files, w, e.gone);
      HeadLeaves(w, w');
    }
  }

  lemma {:induction false} InvQueue(files: Files, w: World)
    requires Inv(files, w)
    ensures QueueRight(w) && forall f :: f in w.deleting || f in w.forgotten ==> f in w.everQueued
  {
    hide CountsRight, UsageRight, KeysOf;
  }

  lemma {:induction false} RemoveStep(files: Files, w: World, gone: bool)
    requires Enabled(files, w, Remove(gone))
    ensures Step(files, w, Remove(gone)).store.deletionQueue == w.store.deletionQueue[1..]
  {}

  lemma {:induction false} WorkerStep(files: Files, w: World, e: Event)
    requires Enabled(files, w, e)
    ensures var w' := Step(files, w, e);
      && w'.forgotten == w.forgotten + (if e.Forget? then {e.f} else {})
      && w'.deleting == (w.deleting + (if e == Remove(true) then {w.store.deletionQueue[0]} else {}))
           - (if e.Forget? then {e.f} else {})
  {
    hide Updated, FindsStats, NewlyQueued;
  }

  lemma {:induction false} InTail(s: seq<File>, n: nat, i: nat)
    requires n <= |s| && i < |s|
    ensures i >= n ==> s[i] in s[n..]
  {
    if i >= n {
      assert s[n..][i - n] == s[i];
    }
  }

  /** What has left the queue does not get into it again. */
  lemma {:induction false} NotQueuedAgain(w: World, w': World, f: File)
    requires QueueRight(w) && QueueRight(w') && w.everQueued <= w'.everQueued
    requires |w'.everQueued| - |w'.store.deletionQueue| >= |w.everQueued| - |w.store.deletionQueue|
    requires f in w.everQueued && f !in w.store.deletionQueue
    ensures f !in w'.store.deletionQueue
  {
    hide KeysOf;
    var i :| 0 <= i < |w.everQueued| && w.everQueued[i] == f;
    var n, n' := |w.everQueued| - |w.store.deletionQueue|, |w'.everQueued| - |w'.store.deletionQueue|;
    InTail(w.everQueued, n, i);
    forall k | 0 <= k < |w'.store.deletionQueue| ensures w'.store.deletionQueue[k] != f {
      assert w'.store.deletionQueue[k] == w'.everQueued[n' + k];
    }
  }

  lemma {:induction false} QueueMoves(files: Files, w: World, e: Event)
    requires Inv(files, w) && Enabled(files, w, e)
    ensures var w' := Step(files, w, e);
      && w.everQueued <= w'.everQueued
      && |w'.everQueued| - |w'.store.deletionQueue| ==
           |w.everQueued| - |w.store.deletionQueue| + if e.Remove? then 1 else 0
  {
    hide CountsRight, UsageRight, QueueRight;
    if e.Take? {
      TakeStep(files, w, e.f);
      hide Step, LastReleased, KeepsOld, SameFlags;
    }
  }

  /** The first in the queue is not in it again. */
  lemma {:induction false} HeadLeaves(w: World, w': World)
    requires QueueRight(w) && w.store.deletionQueue != []
    requires w'.store.deletionQueue == w.store.deletionQueue[1..]
    ensures w.store.deletionQueue[0] in w.everQueued && w.store.deletionQueue[0] !in w'.store.deletionQueue
  {
    hide KeysOf;
    var n := |w.everQueued| - |w.store.deletionQueue|;
    assert w.store.deletionQueue[0] == w.everQueued[n];
    forall k | 0 <= k < |w'.store.deletionQueue| ensures w'.store.deletionQueue[k] != w.store.deletionQueue[0] {
      assert w'.store.deletionQueue[k] == w.everQueued[n + 1 + k];
    }
  }

  // ---------- A load with nothing in between ----------

  lemma OneMoreStep(files: Files, es: seq<Event>, e: Event)
    requires IsRun(files, es) && Enabled(files, After(files, es), e)
    ensures IsRun(files, es + [e]) && After(files, es + [e]) == Step(files, After(files, es), e)
  {
    assert (es + [e])[..|es + [e]| - 1] == es;
  }

  /** The first steps of a load. */
  function FirstSteps(f: File, n: nat): seq<Event> {
    if n == 0 then [Start(f)] else FirstSteps(f, n - 1) + [Take(f)]
  }

  lemma {:induction false} OneMoreSetting(files: Files, w: World, f: File, started: State, n: nat)
    requires f in files && n < |files[f].settings| && CountsRight(started) && f in started.usage
    requires !w.crashed && f in w.phases && w.phases[f] == Loading(n)
    requires w.store == SettingsTaken(started, files[f].settings[..n], files[f].ts, f)
    ensures Enabled(files, w, Take(f))
    ensures var w' := Step(files, w, Take(f));
      && w'.phases == w.phases[f := Loading(n + 1)] && !w'.crashed
      && w'.store == SettingsTaken(started, files[f].settings[..n + 1], files[f].ts, f)
  {
    hide CountsRight, FindsStats, Updated, NewlyQueued, SettingsTaken;
    OneMoreTaken(started, files[f].settings, files[f].ts, f, n);
  }

  lemma {:induction false} FirstStepsAre(files: Files, es: seq<Event>, f: File, n: nat)
    requires IsRun(files, es) && f in files && CountsRight(After(files, es).store)
    requires f in After(files, es).phases && After(files, es).phases[f] == Waiting && !After(files, es).crashed
    requires n <= |files[f].settings|
    ensures IsRun(files, es + FirstSteps(f, n))
    ensures CountsRight(Started(After(files, es).store, f))
    ensures var w, w' := After(files, es), After(files, es + FirstSteps(f, n));
      && w'.phases == w.phases[f := Loading(n)] && !w'.crashed
      && w'.store == SettingsTaken(Started(w.store, f), files[f].settings[..n], files[f].ts, f)
  {
    hide CountsRight, IsRun, After;
    StartKeepsCounts(After(files, es).store, f);
    if n == 0 {
      OneMoreStep(files, es, Start(f));
    } else {
      hide Step, SettingsTaken, Enabled, Started;
      FirstStepsAre(files, es, f, n - 1);
      var before := es + FirstSteps(f, n - 1);
      OneMoreSetting(files, After(files, before), f, Started(After(files, es).store, f), n - 1);
      OneMoreStep(files, before, Take(f));
      assert before + [Take(f)] == es + FirstSteps(f, n);
    }
  }

  /** The last steps of a load: its end, and the send if no key refers to the file. */
  lemma LastStepsAre(files: Files, es: seq<Event>, f: File) returns (more: seq<Event>)
    requires IsRun(files, es) && f in files && f in After(files, es).phases && !After(files, es).crashed
    requires After(files, es).phases[f] == Loading(|files[f].settings|)
    requires f in After(files, es).store.usage
    ensures IsRun(files, es + more)
    ensures var w, w' := After(files, es), After(files, es + more);
      && w'.phases == w.phases[f := Finished]
      && var s := Ended(w.store, f);
         w'.store == if s.usage[f].liveReferences == 0 then s.(deletionQueue := s.deletionQueue + [f]) else s
  {
    hide IsRun, After;
    OneMoreStep(files, es, End(f));
    more := [End(f)];
    if After(files, es + more).phases[f] == Queueing {
      OneMoreStep(files, es + more, Queue(f));
      assert es + more + [Queue(f)] == es + (more + [Queue(f)]);
      more := more + [Queue(f)];
    }
  }

  /** Loading one message from start to end is one way for the protocol to go on: after any run in which
      the file still waits, its steps one after the other leave the store that `MessageLoaded` says. */
  lemma LoadIsRun(files: Files, es: seq<Event>, f: File) returns (more: seq<Event>)
    requires IsRun(files, es) && f in files
    requires f in After(files, es).phases && After(files, es).phases[f] == Waiting
    ensures IsRun(files, es + more) && CountsRight(After(files, es).store)
    ensures After(files, es + more).store ==
      MessageLoaded(After(files, es).store, files[f].settings, files[f].ts, f)
    ensures After(files, es + more).phases == After(files, es).phases[f := Finished]
  {
    hide CountsRight, QueueRight, UsageRight, SettingsTaken, IsRun, After, Step, Ended, Started;
    ReachableInv(files, es);
    var n := |files[f].settings|;
    FirstStepsAre(files, es, f, n);
    assert files[f].settings[..n] == files[f].settings;
    var last := LastStepsAre(files, es + FirstSteps(f, n), f);
    more := FirstSteps(f, n) + last;
    assert es + FirstSteps(f, n) + last == es + more;
  }
}
