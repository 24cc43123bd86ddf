/** What the loaded values say: the newest setting of every key. The files that were never queued
    say the same, so the program can be stopped at any moment and load what is left. */
module Replay {
  import opened Store
  import opened LoadProtocol

  predicate Says(files: Files, f: File, k: Key) {
    f in files && LastOf(files[f].settings, k) != Nothing
  }

  /** Values are the view of a set of messages when every key that a message says something about
      has what the newest of those says, and no other key is there. */
  ghost predicate IsView(files: Files, m: map<Key, Entry>) {
    && (forall f, k :: Says(files, f, k) ==> k in m && files[f].ts <= m[k].lastUpdated)
    && (forall k :: k in m ==> IsEntry(files, k, m[k]))
  }

  ghost predicate IsEntry(files: Files, k: Key, e: Entry) {
    && e.sourceFile in files && files[e.sourceFile].ts == e.lastUpdated
    && LastOf(files[e.sourceFile].settings, k) == Just(e.value)
  }

  /** Different messages about one key have different times. */
  ghost predicate Distinct(files: Files) {
    forall f, g, k :: Says(files, f, k) && Says(files, g, k) && files[f].ts == files[g].ts ==> f == g
  }

  /** There is only one view. */
  lemma ViewIsUnique(files: Files, m: map<Key, Entry>, m': map<Key, Entry>)
    requires Distinct(files) && IsView(files, m) && IsView(files, m')
    ensures m == m'
  {
    hide LastOf;
    forall k | k in m ensures k in m' && m[k] == m'[k] {
      assert Says(files, m[k].sourceFile, k);
      assert Says(files, m'[k].sourceFile, k);
    }
    forall k | k in m' ensures k in m {
      assert Says(files, m'[k].sourceFile, k);
    }
  }

  // ---------- The values along a run ----------

  /** What has been taken in so far. */
  function SoFar(files: Files, w: World, f: File): seq<Setting>
    requires f in files && f in w.phases
  {
    if Progress(files, w, f) <= |files[f].settings| then files[f].settings[..Progress(files, w, f)] else []
  }

  function TakenSoFar(files: Files, w: World): Files
    requires w.phases.Keys == files.Keys
  {
    map f | f in files :: Message(files[f].ts, SoFar(files, w, f))
  }

  ghost predicate ValuesRight(files: Files, w: World) {
    w.phases.Keys == files.Keys && IsView(TakenSoFar(files, w), w.store.values)
  }

  lemma InitialValues(files: Files)
    ensures ValuesRight(files, Initial(files))
  {
    var w := Initial(files);
    assert forall f :: f in files ==> SoFar(files, w, f) == [];
  }

  /** The view does not depend on ties: at equal times the file taken last may win. */
  lemma ViewTakes(files: Files, m: map<Key, Entry>, f: File, v: Setting)
    requires f in files && IsView(files, m)
    ensures IsView(files[f := Message(files[f].ts, files[f].settings + [v])],
                   if v.name in m && m[v.name].lastUpdated > files[f].ts then m
                   else m[v.name := Entry(v, f, files[f].ts)])
  {
    var longer := files[f].settings + [v];
    var files' := files[f := Message(files[f].ts, longer)];
    assert longer[..|longer| - 1] == files[f].settings;
    assert forall k :: LastOf(longer, k) == if k == v.name then Just(v) else LastOf(files[f].settings, k);
    hide LastOf;
    var m' := if v.name in m && m[v.name].lastUpdated > files[f].ts then m else m[v.name := Entry(v, f, files[f].ts)];
    forall g, k | Says(files', g, k) ensures k in m' && files'[g].ts <= m'[k].lastUpdated {
      assert k == v.name || Says(files, g, k);
      assert Says(files, g, k) || g == f;
    }
    forall k | k in m' ensures IsEntry(files', k, m'[k]) {
      if k != v.name || m' == m {
        assert IsEntry(files, k, m[k]);
        assert Says(files, m[k].sourceFile, k);
      }
    }
  }

  lemma StepValues(files: Files, w: World, e: Event)
    requires Inv(files, w) && Enabled(files, w, e) && ValuesRight(files, w)
    ensures ValuesRight(files, Step(files, w, e))
  {
    if e.Take? {
      TakeValues(files, w, e.f);
    } else {
      hide LastOf, IsView, Step, Inv, Enabled, SoFar;
      OthersTakeNothing(files, w, e);
    }
  }

  /** No other step takes anything in. */
  lemma OthersTakeNothing(files: Files, w: World, e: Event)
    requires Inv(files, w) && Enabled(files, w, e) && !e.Take?
    ensures var w' := Step(files, w, e);
      && w'.store.values == w.store.values && w'.store.globalLastUpdated == w.store.globalLastUpdated
      && w'.phases.Keys == w.phases.Keys == files.Keys && TakenSoFar(files, w') == TakenSoFar(files, w)
      && forall f :: f in files ==> Progress(files, w', f) == Progress(files, w, f)
  {
    hide QueueRight, CountsRight;
  }

  lemma LongerPrefix(files: Files, w: World, w': World, f: File)
    requires w.phases.Keys == files.Keys && f in files
    requires w.phases[f].Loading? && w.phases[f].done < |files[f].settings|
    requires w'.phases == w.phases[f := Loading(w.phases[f].done + 1)]
    ensures TakenSoFar(files, w') ==
      TakenSoFar(files, w)[f := Message(files[f].ts, SoFar(files, w, f) + [files[f].settings[w.phases[f].done]])]
  {
    assert SoFar(files, w', f) == SoFar(files, w, f) + [files[f].settings[w.phases[f].done]];
  }

  lemma TakeValues(files: Files, w: World, f: File)
    requires Inv(files, w) && Enabled(files, w, Take(f)) && ValuesRight(files, w)
    ensures ValuesRight(files, Step(files, w, Take(f)))
  {
    var w' := Step(files, w, Take(f));
    var v := files[f].settings[w.phases[f].done];
    TakeStep(files, w, f);
    hide Step, LastReleased, LastOf, IsView, QueueRight, CountsRight, SameFlags, SoFar;
    ViewTakes(TakenSoFar(files, w), w.store.values, f, v);
    LongerPrefix(files, w, w', f);
  }

  lemma {:induction false} ReachableValues(files: Files, es: seq<Event>)
    requires IsRun(files, es)
    ensures ValuesRight(files, After(files, es))
  {
    hide Step, Inv, ValuesRight;
    if es == [] {
      InitialValues(files);
    } else {
      ReachableValues(files, es[..|es| - 1]);
      ReachableInv(files, es[..|es| - 1]);
      StepValues(files, After(files, es[..|es| - 1]), es[|es| - 1]);
    }
  }

  // ---------- The latest time ----------

  predicate HasBegun(files: Files, w: World, f: File) {
    f in files && f in w.phases && Progress(files, w, f) > 0
  }

  /** The latest time is that of the newest message of which something was taken in, whether or not
      any of its settings was kept; before that it is the zero time. */
  ghost predicate LatestRight(files: Files, w: World) {
    && w.phases.Keys == files.Keys
    && ZERO_TIME <= w.store.globalLastUpdated
    && (forall f :: HasBegun(files, w, f) ==> files[f].ts <= w.store.globalLastUpdated)
    && (w.store.globalLastUpdated != ZERO_TIME ==>
          exists f :: HasBegun(files, w, f) && files[f].ts == w.store.globalLastUpdated)
  }

  lemma StepLatest(files: Files, w: World, e: Event)
    requires Inv(files, w) && Enabled(files, w, e) && LatestRight(files, w)
    ensures LatestRight(files, Step(files, w, e))
  {
    hide QueueRight, CountsRight;
    var w' := Step(files, w, e);
    if e.Take? {
      var f := e.f;
      var v := files[f].settings[w.phases[f].done];
      TakeStep(files, w, f);
      hide Step, LastReleased, KeepsOld, SameFlags;
      assert forall g :: HasBegun(files, w', g) <==> HasBegun(files, w, g) || g == f;
    } else {
      hide Step, Inv, Enabled;
      OthersTakeNothing(files, w, e);
      assert forall g :: HasBegun(files, w', g) <==> HasBegun(files, w, g);
    }
  }

  lemma {:induction false} ReachableLatest(files: Files, es: seq<Event>)
    requires IsRun(files, es)
    ensures LatestRight(files, After(files, es))
  {
    hide Step, Inv;
    if es != [] {
      hide LatestRight;
      ReachableLatest(files, es[..|es| - 1]);
      ReachableInv(files, es[..|es| - 1]);
      StepLatest(files, After(files, es[..|es| - 1]), es[|es| - 1]);
    }
  }

  // ---------- Runs that load everything ----------

  ghost predicate AllLoaded(w: World) {
    forall f :: f in w.phases ==> Loaded(w, f)
  }

  /** However the loads are interleaved, with each other and with the worker: when all are done,
      every key has what the newest message about it says. */
  lemma AllLoadedIsView(files: Files, es: seq<Event>)
    requires IsRun(files, es) && AllLoaded(After(files, es))
    ensures IsView(files, After(files, es).store.values)
  {
    hide Step, IsView;
    ReachableValues(files, es);
    var w := After(files, es);
    assert TakenSoFar(files, w) == files by {
      forall f | f in files ensures SoFar(files, w, f) == files[f].settings {
        assert Loaded(w, f);
      }
    }
  }

  // ---------- Stopping and loading what is left ----------

  function Restricted(files: Files, kept: set<File>): Files {
    map f | f in files && f in kept :: files[f]
  }

  /** A set of files that has all files that say the newest thing about some key. */
  ghost predicate HasNewest(files: Files, kept: set<File>) {
    forall f, k :: Says(files, f, k) && f !in kept ==>
      exists g :: g in kept && Says(files, g, k) && files[f].ts < files[g].ts
  }

  lemma SameView(files: Files, kept: set<File>, m: map<Key, Entry>)
    requires HasNewest(files, kept)
    ensures IsView(files, m) <==> IsView(Restricted(files, kept), m)
  {
    hide LastOf;
    var rest := Restricted(files, kept);
    assert forall f, k :: Says(rest, f, k) <==> Says(files, f, k) && f in kept;
    if IsView(files, m) {
      forall k | k in m ensures IsEntry(rest, k, m[k]) {
        var f := m[k].sourceFile;
        assert IsEntry(files, k, m[k]) && Says(files, f, k);
        assert f in kept;
      }
      assert forall f, k :: Says(rest, f, k) ==> Says(files, f, k);
    }
    if IsView(rest, m) {
      forall f, k | Says(files, f, k) ensures k in m && files[f].ts <= m[k].lastUpdated {
        if f in kept {
          assert Says(rest, f, k);
        } else {
          var g :| g in kept && Says(files, g, k) && files[f].ts < files[g].ts;
          assert Says(rest, g, k);
        }
      }
      forall k | k in m ensures IsEntry(files, k, m[k]) {
        assert IsEntry(rest, k, m[k]);
      }
    }
  }

  /** At every moment, what is queued has been overtaken by something that is not. */
  lemma QueuedIsOvertaken(files: Files, es: seq<Event>, kept: set<File>)
    requires IsRun(files, es) && Distinct(files)
    requires forall f :: f in files && f !in After(files, es).everQueued ==> f in kept
    ensures HasNewest(files, kept)
  {
    hide Step, LastOf;
    var w := After(files, es);
    ReachableInv(files, es);
    ReachableValues(files, es);
    var taken := TakenSoFar(files, w);
    forall f, k | Says(files, f, k) && f !in kept
      ensures exists g :: g in kept && Says(files, g, k) && files[f].ts < files[g].ts
    {
      assert f in w.everQueued && w.phases[f] == Finished;
      assert taken[f] == files[f] by { assert SoFar(files, w, f) == files[f].settings; }
      assert Says(taken, f, k);
      var g := w.store.values[k].sourceFile;
      assert IsEntry(taken, k, w.store.values[k]);
      assert k in KeysOf(w.store.values, g);
      assert g !in w.everQueued;
      PrefixSays(files, g, Progress(files, w, g), k);
      assert Says(files, g, k);
    }
  }

  lemma {:induction false} PrefixSays(files: Files, g: File, n: nat, k: Key)
    requires g in files && n <= |files[g].settings| && LastOf(files[g].settings[..n], k) != Nothing
    ensures Says(files, g, k)
  {
    SaysMore(files[g].settings, n, k);
  }

  lemma {:induction false} SaysMore(settings: seq<Setting>, n: nat, k: Key)
    requires n <= |settings| && LastOf(settings[..n], k) != Nothing
    ensures LastOf(settings, k) != Nothing
  {
    if n == |settings| {
      assert settings[..n] == settings;
    } else {
      assert settings[..|settings| - 1][..n] == settings[..n];
      SaysMore(settings[..|settings| - 1], n, k);
    }
  }

  /** Stopped at any moment of any run, whatever queued files are already gone: loading the files
      that are left, in any order and interleaving, gives the very values that loading all of
      them gives. */
  lemma ReloadIsComplete(files: Files, stopped: seq<Event>, left: set<File>, all: seq<Event>, reload: seq<Event>)
    requires Distinct(files) && IsRun(files, stopped)
    requires left <= files.Keys && forall f :: f in files && f !in left ==> f in After(files, stopped).everQueued
    requires IsRun(files, all) && AllLoaded(After(files, all))
    requires IsRun(Restricted(files, left), reload) && AllLoaded(After(Restricted(files, left), reload))
    ensures After(Restricted(files, left), reload).store.values == After(files, all).store.values
  {
    hide Step, IsView, Says, LastOf, IsRun, After, AllLoaded;
    AllLoadedIsView(files, all);
    AllLoadedIsView(Restricted(files, left), reload);
    QueuedIsOvertaken(files, stopped, left);
    SameView(files, left, After(Restricted(files, left), reload).store.values);
    ViewIsUnique(files, After(files, all).store.values, After(Restricted(files, left), reload).store.values);
  }
}
