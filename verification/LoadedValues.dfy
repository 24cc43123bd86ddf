/** The store of loaded values as the program keeps it. */
module LoadedValues {
  import opened Store

  class LoadedValues {
    var values: map<Key, Entry>
    var sourceFileUsage: map<File, Stats>
    var globalLastUpdated: Time
    var deletionQueue: seq<File>
    var subscriptions: map<Key, seq<nat>>
    var channels: seq<seq<Entry>>

    ghost function View(): State
      reads this
    {
      State(values, sourceFileUsage, globalLastUpdated, deletionQueue, subscriptions, channels)
    }

    constructor ()
      ensures View() == EMPTY && CountsRight(View())
    {
      values, sourceFileUsage, globalLastUpdated := map[], map[], ZERO_TIME;
      deletionQueue, subscriptions, channels := [], map[], [];
    }

    method StartLoading(sourceFile: File)
      modifies this
      ensures View() == Started(old(View()), sourceFile)
      ensures sourceFile in sourceFileUsage && sourceFileUsage[sourceFile].loadingInProgress
      ensures sourceFileUsage[sourceFile].liveReferences ==
        if sourceFile in old(sourceFileUsage) then old(sourceFileUsage)[sourceFile].liveReferences else 0
    {
      if sourceFile in sourceFileUsage {
        var stats := sourceFileUsage[sourceFile];
        sourceFileUsage := sourceFileUsage[sourceFile := stats.(loadingInProgress := true)];
      } else {
        sourceFileUsage := sourceFileUsage[sourceFile := Stats(true, 0)];
      }
    }

    /** The part of ending a load that runs under the lock: whether the file is to be queued. */
    method EndLocked(sourceFile: File) returns (unreferenced: bool)
      requires sourceFile in sourceFileUsage
      modifies this
      ensures View() == Ended(old(View()), sourceFile)
      ensures unreferenced == (old(sourceFileUsage)[sourceFile].liveReferences == 0)
    {
      var stats := sourceFileUsage[sourceFile].(loadingInProgress := false);
      sourceFileUsage := sourceFileUsage[sourceFile := stats];
      unreferenced := stats.liveReferences == 0;
    }

    method Enqueue(sourceFile: File)
      modifies this`deletionQueue
      ensures deletionQueue == old(deletionQueue) + [sourceFile]
    {
      deletionQueue := deletionQueue + [sourceFile];
    }

    method EndLoading(sourceFile: File)
      requires sourceFile in sourceFileUsage
      modifies this
      ensures var s := Ended(old(View()), sourceFile);
        View() ==
          if s.usage[sourceFile].liveReferences == 0 then s.(deletionQueue := s.deletionQueue + [sourceFile]) else s
    {
      var unreferenced := EndLocked(sourceFile);
      if unreferenced {
        Enqueue(sourceFile);
      }
    }

    /** The loop of non-blocking sends to the subscribers of a key. */
    method Notify(chs: seq<nat>, e: Entry)
      modifies this`channels
      ensures channels == SentToAll(old(channels), chs, e)
    {
      for i := 0 to |chs|
        invariant channels == SentToAll(old(channels), chs[..i], e)
      {
        assert chs[..i + 1][..i] == chs[..i];
        if chs[i] < |channels| && |channels[chs[i]]| < CHANNEL_CAPACITY {
          channels := channels[chs[i] := channels[chs[i]] + [e]];
        }
      }
      assert chs[..|chs|] == chs;
    }

    /** It would fail on a file without statistics, so those have to be there. */
    method Update(k: Key, v: Setting, ts: Time, sourceFile: File) returns (taken: bool)
      requires FindsStats(View(), k, ts, sourceFile)
      modifies this
      ensures (View(), taken) == Updated(old(View()), k, v, ts, sourceFile)
      ensures taken <==> !(k in old(values) && old(values)[k].lastUpdated > ts)
      ensures values == if taken then old(values)[k := Entry(v, sourceFile, ts)] else old(values)
    {
      assert deletionQueue + [] == deletionQueue;
      if ts > globalLastUpdated {
        globalLastUpdated := ts;
      }
      if k in values {
        var existing := values[k];
        if existing.lastUpdated > ts {
          return false;
        }
        var stats := sourceFileUsage[existing.sourceFile];
        stats := stats.(liveReferences := stats.liveReferences - 1);
        sourceFileUsage := sourceFileUsage[existing.sourceFile := stats];
        if stats.liveReferences == 0 && !stats.loadingInProgress {
          Enqueue(existing.sourceFile);
        }
      }
      values := values[k := Entry(v, sourceFile, ts)];
      var stats := sourceFileUsage[sourceFile];
      sourceFileUsage := sourceFileUsage[sourceFile := stats.(liveReferences := stats.liveReferences + 1)];
      if k in subscriptions {
        Notify(subscriptions[k], values[k]);
      }
      return true;
    }

    method Snapshot() returns (snapshot: map<Key, Entry>)
      ensures snapshot == values
    {
      snapshot := map[];
      var keys := values.Keys;
      while keys != {}
        invariant keys <= values.Keys && snapshot == values - keys
        decreases |keys|
      {
        var k :| k in keys;
        snapshot := snapshot[k := values[k]];
        keys := keys - {k};
      }
    }

    method Subscribe(topics: seq<Key>) returns (ch: nat)
      modifies this
      ensures View() == Subscribed(old(View()), topics) && ch == |old(channels)|
    {
      ch := |channels|;
      channels := channels + [[]];
      for i := 0 to |topics|
        invariant subscriptions == SubscribedTo(old(subscriptions), topics[..i], ch)
        invariant View() == old(View()).(subscriptions := subscriptions, channels := old(channels) + [[]])
      {
        assert topics[..i + 1][..i] == topics[..i];
        var chs := if topics[i] in subscriptions then subscriptions[topics[i]] else [];
        subscriptions := subscriptions[topics[i] := chs + [ch]];
      }
      assert topics[..|topics|] == topics;
    }

    method Receive(ch: nat) returns (e: Entry)
      requires ch < |channels| && channels[ch] != []
      modifies this`channels
      ensures View() == Received(old(View()), ch) && e == old(channels)[ch][0]
    {
      e := channels[ch][0];
      channels := channels[ch := channels[ch][1..]];
    }

    method RemoveFileReferences(sourceFile: File)
      modifies this
      ensures View() == Forgotten(old(View()), sourceFile)
    {
      sourceFileUsage := sourceFileUsage - {sourceFile};
    }

    /** One turn of the deletion worker. Removing the file is outside the program; when it
        fails, the statistics stay. */
    method DeletionTurn(removed: bool) returns (sourceFile: File)
      requires deletionQueue != []
      modifies this
      ensures sourceFile == old(deletionQueue)[0]
      ensures var s := old(View()).(deletionQueue := old(deletionQueue)[1..]);
        View() == if removed then Forgotten(s, sourceFile) else s
    {
      sourceFile := deletionQueue[0];
      deletionQueue := deletionQueue[1..];
      if removed {
        RemoveFileReferences(sourceFile);
      }
    }

    /** Loading one message. The counts are right before and after, so no lookup fails. */
    method AddAllConfigSettings(settings: seq<Setting>, ts: Time, sourceFile: File)
      requires CountsRight(View())
      modifies this
      ensures View() == MessageLoaded(old(View()), settings, ts, sourceFile)
      ensures CountsRight(View())
    {
      hide CountsRight, Updated, FindsStats;
      StartKeepsCounts(View(), sourceFile);
      StartLoading(sourceFile);
      ghost var started := View();
      for i := 0 to |settings|
        invariant View() == SettingsTaken(started, settings[..i], ts, sourceFile)
      {
        assert settings[..i + 1][..i] == settings[..i];
        UpdateKeepsCounts(View(), settings[i].name, settings[i], ts, sourceFile);
        var taken := Update(settings[i].name, settings[i], ts, sourceFile);
      }
      assert settings[..|settings|] == settings;
      EndLoading(sourceFile);
      EndKeepsCounts(SettingsTaken(started, settings, ts, sourceFile), sourceFile, deletionQueue);
    }
  }
}
