/** What the operations on the loaded values do, on values. */
module Store {

  type Key = string
  type File = string
  type Time = int

  /** The zero time, in milliseconds relative to the Unix epoch. */
  const ZERO_TIME: Time := -62135596800000

  /** How many values a subscription channel holds before further sends are dropped. */
  const CHANNEL_CAPACITY: nat := 100

  /** A setting of a message. What it says does not matter here. */
  datatype Setting = Setting(name: Key, payload: int)

  datatype Entry = Entry(value: Setting, sourceFile: File, lastUpdated: Time)

  datatype Stats = Stats(loadingInProgress: bool, liveReferences: int)

  /** Everything behind the lock, the deletion queue, and the contents of the channels. */
  datatype State = State(
    values: map<Key, Entry>,
    usage: map<File, Stats>,
    globalLastUpdated: Time,
    deletionQueue: seq<File>,
    subscriptions: map<Key, seq<nat>>,
    channels: seq<seq<Entry>>)

  const EMPTY := State(map[], map[], ZERO_TIME, [], map[], [])

  function Started(s: State, f: File): State {
    s.(usage := s.usage[f := if f in s.usage then s.usage[f].(loadingInProgress := true) else Stats(true, 0)])
  }

  /** The locked part of ending a load. */
  function Ended(s: State, f: File): State
    requires f in s.usage
  {
    s.(usage := s.usage[f := s.usage[f].(loadingInProgress := false)])
  }

  /** The current value of the key stays when it is newer than the update. */
  predicate KeepsOld(s: State, k: Key, ts: Time) {
    k in s.values && s.values[k].lastUpdated > ts
  }

  /** The file whose statistics an update looks up without checking are there. */
  predicate FindsStats(s: State, k: Key, ts: Time, f: File) {
    !KeepsOld(s, k, ts) ==> f in s.usage && (k in s.values ==> s.values[k].sourceFile in s.usage)
  }

  /** Taking one reference from a file; the file is queued when that was the last one and
      it is not being loaded. */
  function Released(s: State, f: File): State
    requires f in s.usage
  {
    var stats := s.usage[f].(liveReferences := s.usage[f].liveReferences - 1);
    s.(usage := s.usage[f := stats],
       deletionQueue := s.deletionQueue + if stats.liveReferences == 0 && !stats.loadingInProgress then [f] else [])
  }

  function Referenced(s: State, f: File): State
    requires f in s.usage
  {
    s.(usage := s.usage[f := s.usage[f].(liveReferences := s.usage[f].liveReferences + 1)])
  }

  /** A send that is dropped when the channel is full. */
  function Sent(channels: seq<seq<Entry>>, ch: nat, e: Entry): seq<seq<Entry>> {
    if ch < |channels| && |channels[ch]| < CHANNEL_CAPACITY then channels[ch := channels[ch] + [e]] else channels
  }

  function SentToAll(channels: seq<seq<Entry>>, chs: seq<nat>, e: Entry): seq<seq<Entry>> {
    if chs == [] then channels else Sent(SentToAll(channels, chs[..|chs| - 1], e), chs[|chs| - 1], e)
  }

  function SubscribersOf(s: State, k: Key): seq<nat> {
    if k in s.subscriptions then s.subscriptions[k] else []
  }

  /** An update, and whether it was taken. Its time counts even when it is not. */
  function Updated(s: State, k: Key, v: Setting, ts: Time, f: File): (State, bool)
    requires FindsStats(s, k, ts, f)
  {
    var s0 := s.(globalLastUpdated := if ts > s.globalLastUpdated then ts else s.globalLastUpdated);
    if KeepsOld(s, k, ts) then (s0, false) else
    var s1 := if k in s.values then Released(s0, s.values[k].sourceFile) else s0;
    var e := Entry(v, f, ts);
    var s2 := Referenced(s1.(values := s1.values[k := e]), f);
    (s2.(channels := SentToAll(s2.channels, SubscribersOf(s, k), e)), true)
  }

  function Forgotten(s: State, f: File): State {
    s.(usage := s.usage - {f})
  }

  function SubscribedTo(subs: map<Key, seq<nat>>, topics: seq<Key>, ch: nat): map<Key, seq<nat>> {
    if topics == [] then subs else
    var rest := SubscribedTo(subs, topics[..|topics| - 1], ch);
    var t := topics[|topics| - 1];
    rest[t := (if t in rest then rest[t] else []) + [ch]]
  }

  /** A new channel for the given topics. */
  function Subscribed(s: State, topics: seq<Key>): State {
    s.(subscriptions := SubscribedTo(s.subscriptions, topics, |s.channels|), channels := s.channels + [[]])
  }

  /** A receive of the oldest value in a channel. */
  function Received(s: State, ch: nat): State
    requires ch < |s.channels| && s.channels[ch] != []
  {
    s.(channels := s.channels[ch := s.channels[ch][1..]])
  }

  // ---------- Reference counts ----------

  /** The keys whose current value came from a file. */
  function KeysOf(values: map<Key, Entry>, f: File): set<Key> {
    set k | k in values && values[k].sourceFile == f
  }

  /** Every file's count is the number of keys whose current value came from it, and every
      such file has a count. */
  ghost predicate CountsRight(s: State) {
    && (forall f :: f in s.usage ==> s.usage[f].liveReferences == |KeysOf(s.values, f)|)
    && (forall k :: k in s.values ==> s.values[k].sourceFile in s.usage)
    && (forall k :: k in s.values ==> s.values[k].lastUpdated <= s.globalLastUpdated)
  }

  lemma KeysAfterUpdate(values: map<Key, Entry>, k: Key, e: Entry, f: File)
    ensures KeysOf(values[k := e], f) == (KeysOf(values, f) - {k}) + if e.sourceFile == f then {k} else {}
  {}

  lemma SizeWithout(s: set<Key>, k: Key)
    ensures |s - {k}| == |s| - if k in s then 1 else 0
    ensures |(s - {k}) + {k}| == |s - {k}| + 1
  {
    if k !in s {
      assert s - {k} == s;
    }
  }

  /** How one update changes the number of keys that came from a file. */
  lemma CountAfterUpdate(values: map<Key, Entry>, k: Key, e: Entry, f: File)
    ensures |KeysOf(values[k := e], f)| == |KeysOf(values, f)|
      - (if k in values && values[k].sourceFile == f then 1 else 0) + (if e.sourceFile == f then 1 else 0)
  {
    KeysAfterUpdate(values, k, e, f);
    SizeWithout(KeysOf(values, f), k);
    assert k in KeysOf(values, f) <==> k in values && values[k].sourceFile == f;
    assert (KeysOf(values, f) - {k}) + {} == KeysOf(values, f) - {k};
  }

  /** The statistics after an update that is taken. */
  lemma StatsAfterUpdate(s: State, k: Key, v: Setting, ts: Time, f: File, g: File)
    requires FindsStats(s, k, ts, f) && !KeepsOld(s, k, ts) && g in s.usage
    ensures var s' := Updated(s, k, v, ts, f).0;
      && s'.usage.Keys == s.usage.Keys
      && s'.usage[g].loadingInProgress == s.usage[g].loadingInProgress
      && s'.usage[g].liveReferences == s.usage[g].liveReferences
           - (if k in s.values && s.values[k].sourceFile == g then 1 else 0) + (if f == g then 1 else 0)
  {}

  lemma ValuesAfterUpdate(s: State, k: Key, v: Setting, ts: Time, f: File)
    requires FindsStats(s, k, ts, f)
    ensures var s' := Updated(s, k, v, ts, f).0;
      && s'.usage.Keys == s.usage.Keys
      && s'.values == (if KeepsOld(s, k, ts) then s.values else s.values[k := Entry(v, f, ts)])
      && s'.globalLastUpdated == (if ts > s.globalLastUpdated then ts else s.globalLastUpdated)
      && (KeepsOld(s, k, ts) ==> s'.usage == s.usage)
  {}

  /** What every update keeps: the counts, the bound on all times, and that no key's time
      goes down. */
  lemma UpdateKeepsCounts(s: State, k: Key, v: Setting, ts: Time, f: File)
    requires CountsRight(s) && f in s.usage
    ensures FindsStats(s, k, ts, f) && CountsRight(Updated(s, k, v, ts, f).0)
    ensures var s' := Updated(s, k, v, ts, f).0;
      && s'.usage.Keys == s.usage.Keys
      && forall j :: j in s.values ==> j in s'.values && s'.values[j].lastUpdated >= s.values[j].lastUpdated
  {
    hide KeysOf, Updated;
    ValuesAfterUpdate(s, k, v, ts, f);
    if !KeepsOld(s, k, ts) {
      forall g | g in s.usage
        ensures Updated(s, k, v, ts, f).0.usage[g].liveReferences == |KeysOf(s.values[k := Entry(v, f, ts)], g)|
      {
        CountIsKept(s, k, v, ts, f, g);
      }
    }
  }

  lemma CountIsKept(s: State, k: Key, v: Setting, ts: Time, f: File, g: File)
    requires CountsRight(s) && FindsStats(s, k, ts, f) && !KeepsOld(s, k, ts) && g in s.usage
    ensures g in Updated(s, k, v, ts, f).0.usage
    ensures Updated(s, k, v, ts, f).0.usage[g].liveReferences == |KeysOf(s.values[k := Entry(v, f, ts)], g)|
  {
    hide KeysOf, Updated, KeepsOld, FindsStats;
    StatsAfterUpdate(s, k, v, ts, f, g);
    CountAfterUpdate(s.values, k, Entry(v, f, ts), g);
  }

  lemma StartKeepsCounts(s: State, f: File)
    requires CountsRight(s)
    ensures CountsRight(Started(s, f))
  {
    if f !in s.usage {
      assert KeysOf(s.values, f) == {};
    }
  }

  lemma EndKeepsCounts(s: State, f: File, queue: seq<File>)
    requires CountsRight(s) && f in s.usage
    ensures CountsRight(Ended(s, f).(deletionQueue := queue))
  {}

  /** All settings of one message taken in, in order. */
  function SettingsTaken(s: State, settings: seq<Setting>, ts: Time, f: File): (r: State)
    requires CountsRight(s) && f in s.usage
    ensures CountsRight(r) && f in r.usage
  {
    if settings == [] then s else
    var last := settings[|settings| - 1];
    var before := SettingsTaken(s, settings[..|settings| - 1], ts, f);
    UpdateKeepsCounts(before, last.name, last, ts, f);
    Updated(before, last.name, last, ts, f).0
  }

  lemma {:induction false} OneMoreTaken(s: State, settings: seq<Setting>, ts: Time, f: File, n: nat)
    requires CountsRight(s) && f in s.usage && n < |settings|
    ensures var before, v := SettingsTaken(s, settings[..n], ts, f), settings[n];
      && FindsStats(before, v.name, ts, f)
      && SettingsTaken(s, settings[..n + 1], ts, f) == Updated(before, v.name, v, ts, f).0
  {
    hide CountsRight, FindsStats, Updated;
    UpdateKeepsCounts(SettingsTaken(s, settings[..n], ts, f), settings[n].name, settings[n], ts, f);
    assert settings[..n + 1][..n] == settings[..n];
  }

  /** A message loaded from start to end, with nothing in between. */
  function MessageLoaded(s: State, settings: seq<Setting>, ts: Time, f: File): State
    requires CountsRight(s)
  {
    StartKeepsCounts(s, f);
    var r := Ended(SettingsTaken(Started(s, f), settings, ts, f), f);
    if r.usage[f].liveReferences == 0 then r.(deletionQueue := r.deletionQueue + [f]) else r
  }

  // ---------- What a load comes to ----------

  datatype Found = Nothing | Just(setting: Setting)

  /** What a message says about a key: its last setting of that name. */
  function LastOf(settings: seq<Setting>, k: Key): Found {
    if settings == [] then Nothing
    else if settings[|settings| - 1].name == k then Just(settings[|settings| - 1])
    else LastOf(settings[..|settings| - 1], k)
  }

  /** What a key has after a load: what the message says about it, unless that is nothing or what is
      there is newer. */
  lemma {:induction false} SettingsTakenAre(s: State, settings: seq<Setting>, ts: Time, f: File, k: Key)
    requires CountsRight(s) && f in s.usage
    ensures var after := SettingsTaken(s, settings, ts, f).values;
      match LastOf(settings, k)
      case Nothing => (k in after <==> k in s.values) && (k in after ==> after[k] == s.values[k])
      case Just(v) => k in after && after[k] == if KeepsOld(s, k, ts) then s.values[k] else Entry(v, f, ts)
  {
    hide CountsRight;
    if settings != [] {
      var last := settings[|settings| - 1];
      var before := SettingsTaken(s, settings[..|settings| - 1], ts, f);
      UpdateKeepsCounts(before, last.name, last, ts, f);
      SettingsTakenAre(s, settings[..|settings| - 1], ts, f, k);
    }
  }

  /** The values after a message has been loaded: under each key that it names, its last setting of that
      name, unless a newer one is there; and everything else as it was. */
  lemma MessageLoadedIs(s: State, settings: seq<Setting>, ts: Time, f: File)
    requires CountsRight(s)
    ensures var after := MessageLoaded(s, settings, ts, f).values;
      && (forall k :: k in after <==> k in s.values || LastOf(settings, k).Just?)
      && forall k :: k in after ==>
           (after[k] == if LastOf(settings, k).Just? && !(k in s.values && s.values[k].lastUpdated > ts)
                        then Entry(LastOf(settings, k).setting, f, ts) else s.values[k])
  {
    hide LastOf, SettingsTaken, CountsRight;
    StartKeepsCounts(s, f);
    forall k
      ensures var after := SettingsTaken(Started(s, f), settings, ts, f).values;
        match LastOf(settings, k)
        case Nothing => (k in after <==> k in s.values) && (k in after ==> after[k] == s.values[k])
        case Just(v) => k in after && after[k] == if KeepsOld(s, k, ts) then s.values[k] else Entry(v, f, ts)
    {
      SettingsTakenAre(Started(s, f), settings, ts, f, k);
    }
  }
}
