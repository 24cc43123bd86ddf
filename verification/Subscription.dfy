/** One caller that wants to see the latest values of some keys, in every interleaving with
    updates, other subscriptions and the rest of the program. */
module Subscription {
  import opened Store
  import L = LoadedValues

  // ---------- Callbacks ----------

  function KeySet(topics: seq<Key>): set<Key> {
    set t | t in topics
  }

  predicate AllDifferent(topics: seq<Key>) {
    forall i, j :: 0 <= i < j < |topics| ==> topics[i] != topics[j]
  }

  lemma {:induction false} KeySetSize(topics: seq<Key>)
    ensures |KeySet(topics)| <= |topics|
    ensures |KeySet(topics)| == |topics| <==> AllDifferent(topics)
  {
    if topics != [] {
      var n := |topics| - 1;
      var rest := topics[..n];
      KeySetSize(rest);
      assert topics == rest + [topics[n]];
      assert KeySet(topics) == KeySet(rest) + {topics[n]};
      if topics[n] in rest {
        assert KeySet(topics) == KeySet(rest);
      } else {
        assert AllDifferent(topics) <==> AllDifferent(rest);
      }
    }
  }

  lemma SubsetSize(a: set<Key>, b: set<Key>)
    requires a <= b
    ensures |a| <= |b| && (|a| == |b| ==> a == b)
    decreases b
  {
    if a != {} {
      var x :| x in a;
      SubsetSize(a - {x}, b - {x});
      assert a == (a - {x}) + {x} && b == (b - {x}) + {x};
    }
  }

  /** The values that a callback gets: one for each topic, in order. */
  function Args(topics: seq<Key>, recent: map<Key, Entry>): (args: seq<Entry>)
    requires forall t :: t in topics ==> t in recent
    ensures |args| == |topics|
  {
    seq(|topics|, i requires 0 <= i < |topics| => recent[topics[i]])
  }

  ghost predicate IsComplete(topics: seq<Key>, recent: map<Key, Entry>) {
    AllDifferent(topics) && forall t :: t in topics ==> t in recent
  }

  /** Comparing the two sizes tells exactly whether the topics are different and all there. */
  lemma SizeTellsComplete(topics: seq<Key>, recent: map<Key, Entry>)
    requires recent.Keys <= KeySet(topics)
    ensures |recent| == |topics| <==> IsComplete(topics, recent)
  {
    KeySetSize(topics);
    SubsetSize(recent.Keys, KeySet(topics));
    assert |recent| == |recent.Keys|;
    if IsComplete(topics, recent) {
      assert recent.Keys == KeySet(topics);
    }
  }

  class OnChange {
    const loaded: L.LoadedValues
    const topics: seq<Key>
    const ch: nat
    var recentValues: map<Key, Entry>
    var calls: seq<seq<Entry>>

    constructor (l: L.LoadedValues, ts: seq<Key>)
      modifies l
      ensures l.View() == Subscribed(old(l.View()), ts)
      ensures loaded == l && topics == ts && ch == |old(l.channels)| && recentValues == map[] && calls == []
    {
      loaded, topics, recentValues, calls := l, ts, map[], [];
      var c := l.Subscribe(ts);
      ch := c;
    }

    method MaybeCallback()
      requires recentValues.Keys <= KeySet(topics)
      modifies this`calls
      ensures calls == old(calls) + Calls(topics, recentValues)
    {
      SizeTellsComplete(topics, recentValues);
      if |recentValues| == |topics| {
        var args: seq<Entry> := [];
        for i := 0 to |topics|
          invariant args == Args(topics, recentValues)[..i]
        {
          args := args + [recentValues[topics[i]]];
        }
        assert args == Args(topics, recentValues);
        calls := calls + [args];
      }
    }

    /** The part under the lock, and the first callback. */
    method TakeSnapshot()
      requires recentValues == map[]
      modifies this
      ensures recentValues == Snapshot(topics, loaded.values)
      ensures calls == old(calls) + Calls(topics, recentValues)
    {
      for i := 0 to |topics|
        invariant recentValues == Snapshot(topics[..i], loaded.values)
        invariant calls == old(calls)
      {
        if topics[i] in loaded.values {
          recentValues := recentValues[topics[i] := loaded.values[topics[i]]];
        }
        assert topics[..i + 1] == topics[..i] + [topics[i]];
      }
      assert topics[..|topics|] == topics;
      MaybeCallback();
    }

    /** One turn of the loop that receives. */
    method Deliver()
      requires ch < |loaded.channels| && loaded.channels[ch] != []
      requires recentValues.Keys <= KeySet(topics) && loaded.channels[ch][0].value.name in topics
      modifies this, loaded
      ensures loaded.View() == Received(old(loaded.View()), ch)
      ensures var e := old(loaded.channels)[ch][0];
        recentValues == old(recentValues)[e.value.name := e]
      ensures calls == old(calls) + Calls(topics, recentValues)
    {
      var e := loaded.Receive(ch);
      recentValues := recentValues[e.value.name := e];
      MaybeCallback();
    }
  }

  /** No call, or one. */
  ghost function Calls(topics: seq<Key>, recent: map<Key, Entry>): seq<seq<Entry>> {
    if IsComplete(topics, recent) then [Args(topics, recent)] else []
  }

  function Snapshot(topics: seq<Key>, values: map<Key, Entry>): map<Key, Entry> {
    map t | t in topics && t in values :: values[t]
  }

  // ---------- What a channel holds ----------

  /** What receiving everything in a channel leaves for each key. */
  function Pending(q: seq<Entry>): map<Key, Entry> {
    if q == [] then map[] else Pending(q[..|q| - 1])[q[|q| - 1].value.name := q[|q| - 1]]
  }

  lemma {:induction false} ReceivedFirst(q: seq<Entry>)
    requires q != []
    ensures Pending(q) == map[q[0].value.name := q[0]] + Pending(q[1..])
  {
    if |q| > 1 {
      ReceivedFirst(q[..|q| - 1]);
      assert q[..|q| - 1][1..] == q[1..][..|q| - 2];
    }
  }

  lemma {:induction false} PendingNames(q: seq<Entry>, t: Key)
    requires t in Pending(q)
    ensures exists i :: 0 <= i < |q| && q[i].value.name == t
  {
    if q[|q| - 1].value.name != t {
      PendingNames(q[..|q| - 1], t);
    }
  }

  function Pushed(q: seq<Entry>, e: Entry): seq<Entry> {
    if |q| < CHANNEL_CAPACITY then q + [e] else q
  }

  function PushedTimes(q: seq<Entry>, n: nat, e: Entry): (r: seq<Entry>)
    ensures n == 0 ==> r == q
  {
    if n == 0 then q else Pushed(PushedTimes(q, n - 1, e), e)
  }

  lemma {:induction false} SentTo(channels: seq<seq<Entry>>, chs: seq<nat>, e: Entry, ch: nat)
    requires ch < |channels|
    ensures |SentToAll(channels, chs, e)| == |channels|
    ensures SentToAll(channels, chs, e)[ch] == PushedTimes(channels[ch], multiset(chs)[ch], e)
  {
    if chs != [] {
      var n := |chs| - 1;
      SentTo(channels, chs[..n], e, ch);
      assert chs == chs[..n] + [chs[n]];
      assert multiset(chs) == multiset(chs[..n]) + multiset{chs[n]};
    }
  }

  /** Sending once or more: a channel with room ends up with the value last, a full one is as it was. */
  lemma {:induction false} PushedMeans(q: seq<Entry>, n: nat, e: Entry)
    requires n > 0
    ensures |q| >= CHANNEL_CAPACITY ==> PushedTimes(q, n, e) == q
    ensures |q| < CHANNEL_CAPACITY ==> Pending(PushedTimes(q, n, e)) == Pending(q)[e.value.name := e]
    ensures forall i :: 0 <= i < |PushedTimes(q, n, e)| ==> PushedTimes(q, n, e)[i] in q || PushedTimes(q, n, e)[i] == e
  {
    hide Pending;
    PendingGrows(PushedTimes(q, n - 1, e), e);
    if n > 1 {
      PushedMeans(q, n - 1, e);
    }
  }

  lemma PendingGrows(q: seq<Entry>, e: Entry)
    ensures Pending(q + [e]) == Pending(q)[e.value.name := e]
  {
    assert (q + [e])[..|q|] == q;
  }

  // ---------- Runs ----------

  datatype Subscriber =
    | Absent
    | Listening(ch: nat)                    // subscribed, no snapshot taken yet
    | Running(ch: nat, recent: map<Key, Entry>, calls: seq<seq<Entry>>)

  /** `fitted` is history: what the subscriber was last given for each topic, be it by its snapshot or
      by a send that fitted into its channel. */
  datatype System = System(store: State, sub: Subscriber, fitted: map<Key, Entry>)

  datatype Event =
    | Update(v: Setting, ts: Time, f: File)
    | Subscribe
    | TakeSnapshot
    | Deliver
    | SubscribeOther(other: seq<Key>)
    | ReceiveOther(otherCh: nat)
    | Bookkeeping(usage: map<File, Stats>, queue: seq<File>)   // loads starting and ending, deletions

  function Start(): System {
    System(EMPTY, Absent, map[])
  }

  predicate Enabled(y: System, e: Event) {
    match e
    case Update(v, ts, f) => FindsStats(y.store, v.name, ts, f)
    case Subscribe => y.sub.Absent?
    case TakeSnapshot => y.sub.Listening?
    case Deliver => y.sub.Running? && y.sub.ch < |y.store.channels| && y.store.channels[y.sub.ch] != []
    case SubscribeOther(_) => true
    case ReceiveOther(ch) => ch < |y.store.channels| && y.store.channels[ch] != [] && (y.sub.Absent? || y.sub.ch != ch)
    case Bookkeeping(_, _) => true
  }

  /** Whether an update of a topic finds room in the channel. */
  predicate Fits(y: System, topics: seq<Key>, k: Key) {
    && !y.sub.Absent? && k in topics
    && y.sub.ch < |y.store.channels| && |y.store.channels[y.sub.ch]| < CHANNEL_CAPACITY
  }

  ghost function Step(topics: seq<Key>, y: System, e: Event): System
    requires Enabled(y, e)
  {
    match e
    case Update(v, ts, f) =>
      y.(store := Updated(y.store, v.name, v, ts, f).0,
         fitted := if !KeepsOld(y.store, v.name, ts) && Fits(y, topics, v.name) then y.fitted[v.name := Entry(v, f, ts)]
                   else y.fitted)
    case Subscribe =>
      y.(store := Subscribed(y.store, topics), sub := Listening(|y.store.channels|), fitted := map[])
    case TakeSnapshot =>
      var recent := Snapshot(topics, y.store.values);
      y.(sub := Running(y.sub.ch, recent, Calls(topics, recent)), fitted := recent + y.fitted)
    case Deliver =>
      var v := y.store.channels[y.sub.ch][0];
      var recent := y.sub.recent[v.value.name := v];
      y.(store := Received(y.store, y.sub.ch),
         sub := Running(y.sub.ch, recent, y.sub.calls + Calls(topics, recent)))
    case SubscribeOther(other) => y.(store := Subscribed(y.store, other))
    case ReceiveOther(ch) => y.(store := Received(y.store, ch))
    case Bookkeeping(usage, queue) => y.(store := y.store.(usage := usage, deletionQueue := queue))
  }

  ghost predicate IsRun(topics: seq<Key>, es: seq<Event>)
    decreases |es|, 0
  {
    es == [] || (IsRun(topics, es[..|es| - 1]) && Enabled(After(topics, es[..|es| - 1]), es[|es| - 1]))
  }

  ghost function After(topics: seq<Key>, es: seq<Event>): System
    requires IsRun(topics, es)
    decreases |es|, 1
  {
    if es == [] then Start() else Step(topics, After(topics, es[..|es| - 1]), es[|es| - 1])
  }

  // ---------- What holds in every reachable state ----------

  ghost predicate StoreRight(s: State) {
    && (forall k :: k in s.values ==> s.values[k].value.name == k)
    && (forall k, c :: c in SubscribersOf(s, k) ==> c < |s.channels|)
  }

  ghost predicate ChannelRight(topics: seq<Key>, s: State, ch: nat) {
    && ch < |s.channels|
    && (forall k :: ch in SubscribersOf(s, k) <==> k in topics)
    && (forall i :: 0 <= i < |s.channels[ch]| ==> s.channels[ch][i].value.name in topics)
  }

  ghost predicate Same(m: map<Key, Entry>, m': map<Key, Entry>, t: Key) {
    (t in m <==> t in m') && (t in m ==> m[t] == m'[t])
  }

  /** Receiving everything that is in the channel would leave exactly what was last given. */
  ghost predicate RecentRight(topics: seq<Key>, s: State, ch: nat, recent: map<Key, Entry>, fitted: map<Key, Entry>)
    requires ch < |s.channels|
  {
    && recent.Keys <= KeySet(topics)
    && (forall t :: t in recent ==> recent[t].value.name == t)
    && recent + Pending(s.channels[ch]) == fitted
  }

  /** Every callback got one value for each topic; there was one as soon as all topics were there,
      and the last one got what was received last. */
  ghost predicate CallsRight(topics: seq<Key>, recent: map<Key, Entry>, calls: seq<seq<Entry>>) {
    && (calls != [] <==> IsComplete(topics, recent))
    && (calls != [] ==> calls[|calls| - 1] == Args(topics, recent))
    && (forall i :: 0 <= i < |calls| ==> IsCall(topics, calls[i]))
  }

  ghost predicate IsCall(topics: seq<Key>, args: seq<Entry>) {
    |args| == |topics| && forall i :: 0 <= i < |args| ==> args[i].value.name == topics[i]
  }

  ghost predicate Inv(topics: seq<Key>, y: System) {
    && StoreRight(y.store)
    && (!y.sub.Absent? ==> ChannelRight(topics, y.store, y.sub.ch))
    && (y.sub.Listening? ==> Pending(y.store.channels[y.sub.ch]) == y.fitted)
    && (y.sub.Running? ==>
          && RecentRight(topics, y.store, y.sub.ch, y.sub.recent, y.fitted)
          && CallsRight(topics, y.sub.recent, y.sub.calls))
  }

  lemma {:induction false} SubscribersAre(subs: map<Key, seq<nat>>, topics: seq<Key>, ch: nat, k: Key, c: nat)
    ensures var subs' := SubscribedTo(subs, topics, ch);
      (c in (if k in subs' then subs'[k] else []) <==>
        (c in (if k in subs then subs[k] else [])) || (k in topics && c == ch))
  {
    if topics != [] {
      SubscribersAre(subs, topics[..|topics| - 1], ch, k, c);
      assert topics == topics[..|topics| - 1] + [topics[|topics| - 1]];
    }
  }

  function Repeated(ch: nat, n: nat): (chs: seq<nat>)
    ensures |chs| == n
  {
    seq(n, _ => ch)
  }

  lemma OneMoreRepeated(before: seq<nat>, ch: nat, n: nat)
    ensures before + Repeated(ch, n) + [ch] == before + Repeated(ch, n + 1)
  {}

  function ListedUnder(subs: map<Key, seq<nat>>, k: Key): seq<nat> {
    if k in subs then subs[k] else []
  }

  lemma OneMoreTopic(topics: seq<Key>, k: Key)
    requires topics != []
    ensures multiset(topics)[k] == multiset(topics[..|topics| - 1])[k] + if topics[|topics| - 1] == k then 1 else 0
  {
    assert topics == topics[..|topics| - 1] + [topics[|topics| - 1]];
    assert multiset(topics) == multiset(topics[..|topics| - 1]) + multiset{topics[|topics| - 1]};
  }

  /** A subscription lists its channel behind the others, under each key as often as that is named. */
  lemma {:induction false} SubscribedIs(subs: map<Key, seq<nat>>, topics: seq<Key>, ch: nat, k: Key)
    ensures ListedUnder(SubscribedTo(subs, topics, ch), k) ==
      ListedUnder(subs, k) + Repeated(ch, multiset(topics)[k])
  {
    hide Repeated;
    if topics != [] {
      var n := |topics| - 1;
      SubscribedIs(subs, topics[..n], ch, k);
      OneMoreTopic(topics, k);
      OneMoreRepeated(ListedUnder(subs, k), ch, multiset(topics[..n])[k]);
    }
  }

  lemma SubscribedIsRight(s: State, topics: seq<Key>)
    requires StoreRight(s)
    ensures var s' := Subscribed(s, topics);
      && StoreRight(s')
      && ChannelRight(topics, s', |s.channels|)
      && s'.channels[|s.channels|] == []
  {
    forall k, c ensures c in SubscribersOf(Subscribed(s, topics), k) <==>
      c in SubscribersOf(s, k) || (k in topics && c == |s.channels|)
    {
      SubscribersAre(s.subscriptions, topics, |s.channels|, k, c);
    }
  }

  lemma OthersStay(s: State, topics: seq<Key>, other: seq<Key>, ch: nat)
    requires StoreRight(s) && ChannelRight(topics, s, ch)
    ensures ChannelRight(topics, Subscribed(s, other), ch)
    ensures Subscribed(s, other).channels[ch] == s.channels[ch]
  {
    forall k ensures ch in SubscribersOf(Subscribed(s, other), k) <==> ch in SubscribersOf(s, k) {
      SubscribersAre(s.subscriptions, other, |s.channels|, k, ch);
    }
  }

  lemma ReceivedIsRight(s: State, ch: nat)
    requires StoreRight(s) && ch < |s.channels| && s.channels[ch] != []
    ensures StoreRight(Received(s, ch))
  {
    assert forall k :: SubscribersOf(Received(s, ch), k) == SubscribersOf(s, k);
  }

  // ---------- Updates ----------

  /** An update that is taken, as one channel sees it. */
  lemma UpdateSent(s: State, v: Setting, ts: Time, f: File, ch: nat)
    requires FindsStats(s, v.name, ts, f) && !KeepsOld(s, v.name, ts) && ch < |s.channels|
    ensures var s' := Updated(s, v.name, v, ts, f).0;
      && s'.values == s.values[v.name := Entry(v, f, ts)]
      && s'.subscriptions == s.subscriptions && |s'.channels| == |s.channels|
      && s'.channels[ch] == PushedTimes(s.channels[ch], multiset(SubscribersOf(s, v.name))[ch], Entry(v, f, ts))
  {
    SentTo(s.channels, SubscribersOf(s, v.name), Entry(v, f, ts), ch);
  }

  lemma UpdateStore(s: State, v: Setting, ts: Time, f: File)
    requires StoreRight(s) && FindsStats(s, v.name, ts, f)
    ensures StoreRight(Updated(s, v.name, v, ts, f).0)
  {
    var s' := Updated(s, v.name, v, ts, f).0;
    assert s'.subscriptions == s.subscriptions;
    assert forall k :: SubscribersOf(s', k) == SubscribersOf(s, k);
    if !KeepsOld(s, v.name, ts) && |s.channels| > 0 {
      UpdateSent(s, v, ts, f, 0);
    }
  }

  /** The channel after an update: untouched for another key, or when it is full; otherwise what is
      received last for the key is the new value. */
  lemma UpdateChannel(topics: seq<Key>, s: State, v: Setting, ts: Time, f: File, ch: nat)
    requires ChannelRight(topics, s, ch) && FindsStats(s, v.name, ts, f) && !KeepsOld(s, v.name, ts)
    ensures var s' := Updated(s, v.name, v, ts, f).0;
      && ChannelRight(topics, s', ch)
      && s'.values == s.values[v.name := Entry(v, f, ts)]
      && (v.name !in topics || |s.channels[ch]| >= CHANNEL_CAPACITY ==> s'.channels[ch] == s.channels[ch])
      && (v.name in topics && |s.channels[ch]| < CHANNEL_CAPACITY ==>
            Pending(s'.channels[ch]) == Pending(s.channels[ch])[v.name := Entry(v, f, ts)])
  {
    hide Updated, PushedTimes, Pending, FindsStats, KeepsOld;
    var s' := Updated(s, v.name, v, ts, f).0;
    UpdateSent(s, v, ts, f, ch);
    assert forall k :: SubscribersOf(s', k) == SubscribersOf(s, k);
    var n := multiset(SubscribersOf(s, v.name))[ch];
    if n > 0 {
      PushedMeans(s.channels[ch], n, Entry(v, f, ts));
    }
  }

  lemma UpdateRefused(topics: seq<Key>, y: System, v: Setting, ts: Time, f: File)
    requires Inv(topics, y) && FindsStats(y.store, v.name, ts, f) && KeepsOld(y.store, v.name, ts)
    ensures Inv(topics, Step(topics, y, Update(v, ts, f)))
  {
    var s' := Updated(y.store, v.name, v, ts, f).0;
    assert s'.values == y.store.values && s'.channels == y.store.channels && s'.subscriptions == y.store.subscriptions;
    hide Pending, CallsRight, FindsStats, Updated, KeySet, SubscribersOf;
    SameSubscribers(y.store, s');
  }

  lemma UpdateInv(topics: seq<Key>, y: System, v: Setting, ts: Time, f: File)
    requires Inv(topics, y) && FindsStats(y.store, v.name, ts, f)
    ensures Inv(topics, Step(topics, y, Update(v, ts, f)))
  {
    hide Pending, CallsRight, FindsStats, KeepsOld, StoreRight, ChannelRight, Updated, KeySet;
    if KeepsOld(y.store, v.name, ts) {
      UpdateRefused(topics, y, v, ts, f);
    } else {
      UpdateStore(y.store, v, ts, f);
      if !y.sub.Absent? {
        ChannelsThere(topics, y.store, y.sub.ch);
        UpdateChannel(topics, y.store, v, ts, f, y.sub.ch);
      }
    }
  }

  lemma ChannelsThere(topics: seq<Key>, s: State, ch: nat)
    requires ChannelRight(topics, s, ch)
    ensures ch < |s.channels|
  {}

  /** An update that finds the channel full gives the subscriber nothing: whatever it goes on to
      receive, it is up to date only if the new value is the one that it was last given. */
  lemma FullChannelGoesStale(topics: seq<Key>, y: System, v: Setting, ts: Time, f: File)
    requires Inv(topics, y) && y.sub.Running? && v.name in topics
    requires FindsStats(y.store, v.name, ts, f) && !KeepsOld(y.store, v.name, ts)
    requires |y.store.channels[y.sub.ch]| >= CHANNEL_CAPACITY
    ensures var y' := Step(topics, y, Update(v, ts, f));
      && y'.sub == y.sub && y'.fitted == y.fitted
      && y.sub.ch < |y'.store.channels| && y'.store.channels[y.sub.ch] == y.store.channels[y.sub.ch]
      && (Same(y'.store.values, y'.sub.recent + Pending(y'.store.channels[y.sub.ch]), v.name) <==>
            v.name in y.fitted && y.fitted[v.name] == Entry(v, f, ts))
  {
    hide Pending, Updated, CallsRight, StoreRight, KeySet;
    UpdateChannel(topics, y.store, v, ts, f, y.sub.ch);
  }

  lemma SubscribeInv(topics: seq<Key>, y: System)
    requires Inv(topics, y) && y.sub.Absent?
    ensures Inv(topics, Step(topics, y, Subscribe))
  {
    hide StoreRight, ChannelRight;
    SubscribedIsRight(y.store, topics);
  }

  lemma TakeSnapshotInv(topics: seq<Key>, y: System)
    requires Inv(topics, y) && y.sub.Listening?
    ensures Inv(topics, Step(topics, y, TakeSnapshot))
  {
    hide ChannelRight, SubscribersOf;
    var recent := Snapshot(topics, y.store.values);
    FirstCalls(topics, recent);
  }

  lemma FirstCalls(topics: seq<Key>, recent: map<Key, Entry>)
    requires forall t :: t in recent ==> recent[t].value.name == t
    ensures CallsRight(topics, recent, Calls(topics, recent))
  {}

  lemma MoreCalls(topics: seq<Key>, recent: map<Key, Entry>, recent': map<Key, Entry>, calls: seq<seq<Entry>>)
    requires CallsRight(topics, recent, calls) && recent.Keys <= recent'.Keys
    requires forall t :: t in recent' ==> recent'[t].value.name == t
    ensures CallsRight(topics, recent', calls + Calls(topics, recent'))
  {}

  lemma DeliverInv(topics: seq<Key>, y: System)
    requires Inv(topics, y) && Enabled(y, Deliver)
    ensures Inv(topics, Step(topics, y, Deliver))
  {
    hide Pending, SubscribersOf, CallsRight, Calls;
    var ch := y.sub.ch;
    var q := y.store.channels[ch];
    var e := q[0];
    ReceivedIsRight(y.store, ch);
    ReceivedFirst(q);
    var recent := y.sub.recent[e.value.name := e];
    MoreCalls(topics, y.sub.recent, recent, y.sub.calls);
    var s' := Received(y.store, ch);
    assert forall k :: SubscribersOf(s', k) == SubscribersOf(y.store, k) by {
      SameSubscribers(y.store, s');
    }
    assert s'.channels[ch] == q[1..];
    assert recent + Pending(q[1..]) == y.sub.recent + Pending(q);
  }

  lemma SameSubscribers(s: State, s': State)
    requires s.subscriptions == s'.subscriptions
    ensures forall k :: SubscribersOf(s', k) == SubscribersOf(s, k)
  {}

  lemma ElsewhereInv(topics: seq<Key>, y: System, e: Event)
    requires Inv(topics, y) && Enabled(y, e) && (e.SubscribeOther? || e.ReceiveOther? || e.Bookkeeping?)
    ensures Inv(topics, Step(topics, y, e))
  {
    hide Pending, CallsRight, KeySet;
    match e
    case SubscribeOther(other) =>
      SubscribedIsRight(y.store, other);
      if !y.sub.Absent? {
        OthersStay(y.store, topics, other, y.sub.ch);
      }
    case ReceiveOther(ch) =>
      ReceivedIsRight(y.store, ch);
      SameSubscribers(y.store, Received(y.store, ch));
    case Bookkeeping(usage, queue) =>
      SameSubscribers(y.store, Step(topics, y, e).store);
  }

  lemma {:induction false} ReachableInv(topics: seq<Key>, es: seq<Event>)
    requires IsRun(topics, es)
    ensures Inv(topics, After(topics, es))
  {
    hide Inv, Step;
    if es == [] {
      StartInv(topics);
    } else {
      var y := After(topics, es[..|es| - 1]);
      ReachableInv(topics, es[..|es| - 1]);
      match es[|es| - 1]
      case Update(v, ts, f) => UpdateInv(topics, y, v, ts, f);
      case Subscribe => SubscribeInv(topics, y);
      case TakeSnapshot => TakeSnapshotInv(topics, y);
      case Deliver => DeliverInv(topics, y);
      case _ => ElsewhereInv(topics, y, es[|es| - 1]);
    }
  }

  lemma StartInv(topics: seq<Key>)
    ensures Inv(topics, Start())
  {
    assert forall k :: SubscribersOf(EMPTY, k) == [];
  }

  // ---------- What every run gives ----------

  /** In every interleaving, a callback only ever runs with one value for each of the topics, in
      their order; and one has run exactly when the topics are different and all there. */
  lemma CallbacksAreComplete(topics: seq<Key>, es: seq<Event>)
    requires IsRun(topics, es) && After(topics, es).sub.Running?
    ensures var sub := After(topics, es).sub;
      && (forall i :: 0 <= i < |sub.calls| ==> IsCall(topics, sub.calls[i]))
      && (sub.calls != [] <==> |sub.recent| == |topics|)
      && (!AllDifferent(topics) ==> sub.calls == [])
  {
    hide Step;
    ReachableInv(topics, es);
    SizeTellsComplete(topics, After(topics, es).sub.recent);
  }

  /** How often the subscriber has had a value for each topic, after its snapshot or a receive. */
  ghost function TimesComplete(topics: seq<Key>, es: seq<Event>): nat
    requires IsRun(topics, es)
  {
    if es == [] then 0 else
    var y := After(topics, es);
    TimesComplete(topics, es[..|es| - 1]) +
      if (es[|es| - 1].TakeSnapshot? || es[|es| - 1].Deliver?) && forall t :: t in topics ==> t in y.sub.recent
      then 1 else 0
  }

  /** No call is left out: there is one for every time that a value was there for each topic. */
  lemma {:induction false} OneCallEach(topics: seq<Key>, es: seq<Event>)
    requires IsRun(topics, es) && AllDifferent(topics)
    ensures After(topics, es).sub.Running? ==> |After(topics, es).sub.calls| == TimesComplete(topics, es)
    ensures !After(topics, es).sub.Running? ==> TimesComplete(topics, es) == 0
  {
    if es != [] {
      OneCallEach(topics, es[..|es| - 1]);
    }
  }

  /** Whether the newest value of a topic since the subscription found the channel full. */
  ghost predicate IsLost(topics: seq<Key>, es: seq<Event>, t: Key)
    requires IsRun(topics, es)
  {
    es != [] &&
    var before := es[..|es| - 1];
    var y := After(topics, before);
    match es[|es| - 1]
    case Subscribe => false
    case Update(v, ts, f) =>
      if v.name == t && !KeepsOld(y.store, t, ts) then !y.sub.Absent? && !Fits(y, topics, t)
      else IsLost(topics, before, t)
    case _ => IsLost(topics, before, t)
  }

  /** A topic is up to date with what was last given, as far as anything was. */
  ghost predicate Current(y: System, t: Key) {
    && (y.sub.Listening? && t in y.fitted ==> Same(y.store.values, y.fitted, t))
    && (y.sub.Running? ==> Same(y.store.values, y.fitted, t))
  }

  /** Unless the newest value of a topic was lost, it is what was last given. */
  lemma {:induction false} GivenUnlessLost(topics: seq<Key>, es: seq<Event>, t: Key)
    requires IsRun(topics, es) && t in topics && !IsLost(topics, es, t)
    ensures Current(After(topics, es), t)
  {
    hide Step, Current, Fits, KeepsOld;
    if es == [] {
      NothingGiven(topics, t);
    } else {
      var before, e := es[..|es| - 1], es[|es| - 1];
      var y := After(topics, before);
      if e.Subscribe? || (e.Update? && e.v.name == t && !KeepsOld(y.store, t, e.ts)) {
        GivesNewest(topics, y, e, t);
      } else {
        GivenUnlessLost(topics, before, t);
        StaysCurrent(topics, y, e, t);
      }
    }
  }

  lemma NothingGiven(topics: seq<Key>, t: Key)
    ensures Current(Start(), t)
  {}

  lemma GivesNewest(topics: seq<Key>, y: System, e: Event, t: Key)
    requires Enabled(y, e) && t in topics
    requires !e.Subscribe? ==> e.Update? && e.v.name == t && !KeepsOld(y.store, t, e.ts)
    requires !e.Subscribe? ==> y.sub.Absent? || Fits(y, topics, t)
    ensures Current(Step(topics, y, e), t)
  {}

  lemma StaysCurrent(topics: seq<Key>, y: System, e: Event, t: Key)
    requires Enabled(y, e) && t in topics && Current(y, t) && !e.Subscribe?
    requires e.Update? ==> e.v.name != t || KeepsOld(y.store, t, e.ts)
    ensures Current(Step(topics, y, e), t)
  {
    hide Fits;
  }

  ghost predicate IsDrained(y: System) {
    y.sub.Running? && y.sub.ch < |y.store.channels| && y.store.channels[y.sub.ch] == []
  }

  /** Once the channel is drained, the subscriber has exactly what it was last given; for each topic
      that is the newest value, unless that one was lost. */
  lemma DrainedIsUpToDate(topics: seq<Key>, es: seq<Event>, t: Key)
    requires IsRun(topics, es) && IsDrained(After(topics, es)) && t in topics
    ensures var y := After(topics, es);
      && y.sub.recent == y.fitted
      && (!IsLost(topics, es, t) ==> Same(y.store.values, y.sub.recent, t))
  {
    hide Step, IsLost;
    ReachableInv(topics, es);
    var y := After(topics, es);
    assert y.sub.recent + Pending([]) == y.sub.recent;
    if !IsLost(topics, es, t) {
      GivenUnlessLost(topics, es, t);
    }
  }

  /** Drained, the topics different and all known: the last callback that ran got exactly the newest
      values if and only if those are what was last given, as they are unless one of them was lost. */
  lemma LastCallIsNewest(topics: seq<Key>, es: seq<Event>)
    requires IsRun(topics, es) && IsDrained(After(topics, es)) && AllDifferent(topics)
    requires forall t :: t in topics ==> t in After(topics, es).store.values
    ensures var y := After(topics, es);
      && ((y.sub.calls != [] && y.sub.calls[|y.sub.calls| - 1] == Args(topics, y.store.values)) <==>
            forall t :: t in topics ==> Same(y.store.values, y.fitted, t))
      && ((forall t :: t in topics ==> !IsLost(topics, es, t)) ==>
            forall t :: t in topics ==> Same(y.store.values, y.fitted, t))
  {
    hide Step, IsLost;
    ReachableInv(topics, es);
    var y := After(topics, es);
    forall t | t in topics
      ensures y.sub.recent == y.fitted && (!IsLost(topics, es, t) ==> Same(y.store.values, y.fitted, t))
    {
      DrainedIsUpToDate(topics, es, t);
    }
    assert y.sub.recent + Pending([]) == y.sub.recent;
    assert (forall t :: t in topics ==> Same(y.store.values, y.fitted, t)) ==> IsComplete(topics, y.sub.recent);
    if y.sub.calls != [] {
      SameArgs(topics, y.sub.recent, y.store.values);
    }
  }

  lemma SameArgs(topics: seq<Key>, m: map<Key, Entry>, m': map<Key, Entry>)
    requires forall t :: t in topics ==> t in m && t in m'
    ensures Args(topics, m) == Args(topics, m') <==> forall t :: t in topics ==> Same(m', m, t)
  {
    forall t | t in topics && Args(topics, m) == Args(topics, m') ensures m[t] == m'[t] {
      var i :| 0 <= i < |topics| && topics[i] == t;
      assert Args(topics, m)[i] == m[t] && Args(topics, m')[i] == m'[t];
    }
    if forall t :: t in topics ==> Same(m', m, t) {
      assert forall i :: 0 <= i < |topics| ==> Same(m', m, topics[i]);
    }
  }

  // ---------- A run that goes stale ----------

  function Nth(t: Key, f: File, n: nat): Entry {
    Entry(Setting(t, n), f, 0)
  }

  /** A file is being loaded, one subscriber has its snapshot, and then `n` settings of the file, all
      for its topic and all of the same time, are taken while it receives nothing. */
  function Updates(t: Key, f: File, n: nat): seq<Event> {
    if n == 0 then [Bookkeeping(map[f := Stats(true, 0)], []), Subscribe, TakeSnapshot]
    else Updates(t, f, n - 1) + [Update(Setting(t, n), 0, f)]
  }

  /** And then it receives `k` values. */
  function Deliveries(t: Key, f: File, n: nat, k: nat): seq<Event> {
    if k == 0 then Updates(t, f, n) else Deliveries(t, f, n, k - 1) + [Deliver]
  }

  function HowManyFit(n: nat): nat {
    if n < CHANNEL_CAPACITY then n else CHANNEL_CAPACITY
  }

  /** The system after `n` updates and `k` deliveries: the newest value is the `n`th, but what was last
      given is what fitted last. */
  ghost predicate IsAfter(y: System, t: Key, f: File, n: nat, k: nat) {
    var fit := HowManyFit(n);
    && f in y.store.usage && y.store.subscriptions == map[t := [0]] && |y.store.channels| == 1
    && y.sub.Running? && y.sub.ch == 0 && k <= fit && |y.store.channels[0]| == fit - k
    && y.store.values == (if n == 0 then map[] else map[t := Nth(t, f, n)])
    && y.fitted == (if n == 0 then map[] else map[t := Nth(t, f, fit)])
  }

  lemma OpeningRuns(t: Key, f: File)
    ensures IsRun([t], Updates(t, f, 0)) && IsAfter(After([t], Updates(t, f, 0)), t, f, 0, 0)
  {
    var a, b, c := Bookkeeping(map[f := Stats(true, 0)], []), Subscribe, TakeSnapshot;
    RunGoesOn([t], [], a);
    RunGoesOn([t], [a], b);
    RunGoesOn([t], [a, b], c);
    assert [] + [a] == [a] && [a] + [b] == [a, b] && [a, b] + [c] == [a, b, c];
    OneTopic(t);
  }

  lemma RunGoesOn(topics: seq<Key>, es: seq<Event>, e: Event)
    requires IsRun(topics, es) && Enabled(After(topics, es), e)
    ensures IsRun(topics, es + [e]) && After(topics, es + [e]) == Step(topics, After(topics, es), e)
  {
    hide Step, Enabled;
    assert (es + [e])[..|es + [e]| - 1] == es;
  }

  lemma OneTopic(t: Key)
    ensures SubscribedTo(map[], [t], 0) == map[t := [0]]
  {
    var none: map<Key, seq<nat>> := map[];
    assert [t][..|[t]| - 1] == [] && [t][|[t]| - 1] == t;
    assert SubscribedTo(none, [], 0) == none;
    assert SubscribedTo(none, [t], 0) == none[t := [] + [0]];
    assert [] + [0 as nat] == [0] && none[t := [0]] == map[t := [0]];
  }

  lemma OneMoreUpdate(y: System, t: Key, f: File, n: nat)
    requires IsAfter(y, t, f, n, 0)
    ensures var e := Update(Setting(t, n + 1), 0, f);
      Enabled(y, e) && IsAfter(Step([t], y, e), t, f, n + 1, 0)
  {
    assert SubscribersOf(y.store, t) == [0];
    SentTo(y.store.channels, [0], Nth(t, f, n + 1), 0);
    assert multiset([0])[0 as nat] == 1;
  }

  lemma {:induction false} UpdatesRun(t: Key, f: File, n: nat)
    ensures IsRun([t], Updates(t, f, n)) && IsAfter(After([t], Updates(t, f, n)), t, f, n, 0)
  {
    hide IsAfter, Step, IsRun, After, Enabled;
    if n == 0 {
      OpeningRuns(t, f);
    } else {
      UpdatesRun(t, f, n - 1);
      OneMoreUpdate(After([t], Updates(t, f, n - 1)), t, f, n - 1);
      RunGoesOn([t], Updates(t, f, n - 1), Update(Setting(t, n), 0, f));
    }
  }

  lemma OneMoreDelivery(y: System, t: Key, f: File, n: nat, k: nat)
    requires IsAfter(y, t, f, n, k) && k < HowManyFit(n)
    ensures Enabled(y, Deliver) && IsAfter(Step([t], y, Deliver), t, f, n, k + 1)
  {}

  lemma {:induction false} DeliveriesRun(t: Key, f: File, n: nat, k: nat)
    requires k <= HowManyFit(n)
    ensures IsRun([t], Deliveries(t, f, n, k)) && IsAfter(After([t], Deliveries(t, f, n, k)), t, f, n, k)
  {
    hide IsAfter, Step, IsRun, After, Enabled;
    if k == 0 {
      UpdatesRun(t, f, n);
    } else {
      DeliveriesRun(t, f, n, k - 1);
      OneMoreDelivery(After([t], Deliveries(t, f, n, k - 1)), t, f, n, k - 1);
      RunGoesOn([t], Deliveries(t, f, n, k - 1), Deliver);
    }
  }

  /** One update more than the channel holds, and then everything is received: the subscriber is left
      with the value before the newest. */
  lemma CanGoStale(t: Key, f: File)
    ensures var es := Deliveries(t, f, CHANNEL_CAPACITY + 1, CHANNEL_CAPACITY);
      && IsRun([t], es) && IsDrained(After([t], es)) && IsLost([t], es, t)
      && After([t], es).store.values == map[t := Nth(t, f, CHANNEL_CAPACITY + 1)]
      && After([t], es).sub.recent == map[t := Nth(t, f, CHANNEL_CAPACITY)]
  {
    hide Step, Deliveries, IsLost;
    var es := Deliveries(t, f, CHANNEL_CAPACITY + 1, CHANNEL_CAPACITY);
    DeliveriesRun(t, f, CHANNEL_CAPACITY + 1, CHANNEL_CAPACITY);
    DrainedIsUpToDate([t], es, t);
  }
}
