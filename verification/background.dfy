/** The background worker: it compiles and installs the blocking rules,
    changes the policy maps when blocks and sessions start and end, reacts
    to alarms and storage changes, and restores strict blocks from the
    backup at startup. */
module Background {
  import opened Wrappers
  import opened Strings
  import opened Domains
  import opened Policy
  import opened Rules

  /** The alarm that ends a strict block: the url behind a `strict_`
      prefix, never taken for a focus alarm. */
  function StrictAlarmName(url: string): (name: string)
    ensures StartsWith(name, "strict_") && name[7..] == url
    ensures !StartsWith(name, "focus_")
  {
    assert ("strict_" + url)[0] == 's';
    "strict_" + url
  }

  /** The alarm that ends a focus session: the session id behind a `focus_`
      prefix, never taken for a strict alarm. */
  function FocusAlarmName(sessionId: string): (name: string)
    ensures StartsWith(name, "focus_") && name[6..] == sessionId
    ensures !StartsWith(name, "strict_")
  {
    assert ("focus_" + sessionId)[0] == 'f';
    "focus_" + sessionId
  }

  /** `"session_" + Date.now()`: the clock reading printed in decimal
      behind a `session_` prefix. */
  function SessionId(now: int): (id: string)
    ensures StartsWith(id, "session_") && id[8..] == IntToDecimal(now)
  {
    "session_" + IntToDecimal(now)
  }

  /** Sessions started at different milliseconds get different ids. */
  lemma SessionIdInjective(t: int, u: int)
    requires SessionId(t) == SessionId(u)
    ensures t == u
  {
    IntToDecimalInjective(t, u);
  }

  /** What `handleAlarm` does with an alarm name. */
  datatype AlarmEvent = StrictExpired(url: string) | FocusExpired(sessionId: string) | Unrelated

  /** The dispatch of `handleAlarm`: `strict_` is checked first, then `focus_`;
      `replace` removes the first occurrence of the prefix, which the
      `startsWith` test has placed at the front. */
  function DecodeAlarm(name: string): (e: AlarmEvent)
    ensures e.StrictExpired? <==> StartsWith(name, "strict_")
    ensures e.StrictExpired? ==> StrictAlarmName(e.url) == name
    ensures e.FocusExpired? <==> !StartsWith(name, "strict_") && StartsWith(name, "focus_")
    ensures e.FocusExpired? ==> FocusAlarmName(e.sessionId) == name
  {
    if StartsWith(name, "strict_") then StrictExpired(name[7..])
    else if StartsWith(name, "focus_") then FocusExpired(name[6..])
    else Unrelated
  }

  /** The alarm `addStrictBlock` schedules decodes back to the same url. */
  lemma StrictAlarmRoundTrip(url: string)
    ensures DecodeAlarm(StrictAlarmName(url)) == StrictExpired(url)
  {
    assert StrictAlarmName(url)[..7] == "strict_";
    assert StrictAlarmName(url)[7..] == url;
  }

  /** The alarm `startFocusSession` schedules decodes back to the same session. */
  lemma FocusAlarmRoundTrip(sessionId: string)
    ensures DecodeAlarm(FocusAlarmName(sessionId)) == FocusExpired(sessionId)
  {
    var name := FocusAlarmName(sessionId);
    assert name[0] == 'f';
    assert name[..6] == "focus_";
    assert name[6..] == sessionId;
  }

  /** Different urls have different strict alarms. */
  lemma StrictAlarmNameInjective(u: string, v: string)
    requires StrictAlarmName(u) == StrictAlarmName(v)
    ensures u == v
  {
    assert u == StrictAlarmName(u)[7..];
    assert v == StrictAlarmName(v)[7..];
  }

  /** `isUrlInWhitelist` of the background worker. The url is parsed
      unguarded, so a url that does not parse throws (`None`); otherwise the
      host, `www.` stripped, is matched against each entry. */
  function IsUrlInWhitelist(hostname: Option<string>, whitelist: seq<string>): (r: Option<bool>)
    ensures r.None? <==> hostname.None?
    ensures hostname.Some? ==>
      (r.value <==> exists i :: 0 <= i < |whitelist| && SuffixMatch(StripWww(hostname.value), StripWww(whitelist[i])))
  {
    match hostname
    case None => None
    case Some(host) => Some(AnyAllowed(StripWww(host), whitelist))
  }

  /** The storage keys whose change makes `handleStorageChange` recompile. */
  const RuleKeys: set<string> := {"blockedSites", "strictBlocks", "focusSessions"}

  /** A set of keys meets `RuleKeys` exactly when it holds one of the three. */
  lemma MeetsRuleKeys(changedKeys: set<string>)
    ensures changedKeys * RuleKeys != {} <==>
      "blockedSites" in changedKeys || "strictBlocks" in changedKeys || "focusSessions" in changedKeys
  {
    if changedKeys * RuleKeys != {} {
      var k :| k in changedKeys * RuleKeys;
      assert k in RuleKeys;
    } else {
      assert "blockedSites" !in changedKeys * RuleKeys;
      assert "strictBlocks" !in changedKeys * RuleKeys;
      assert "focusSessions" !in changedKeys * RuleKeys;
    }
  }

  /** `handleStorageChange`'s test: a change in the local area to one of the
      keys the rule compiler reads. */
  predicate TriggersRecompile(changedKeys: set<string>, namespace: string)
    ensures TriggersRecompile(changedKeys, namespace) <==> namespace == "local" && changedKeys * RuleKeys != {}
  {
    MeetsRuleKeys(changedKeys);
    namespace == "local" && ("blockedSites" in changedKeys || "strictBlocks" in changedKeys || "focusSessions" in changedKeys)
  }

  /** The storage keys whose values differ between two snapshots. */
  function ChangedKeys(before: Snapshot, after: Snapshot): (changed: set<string>)
    ensures changed <= RuleKeys + {"whitelist", "incognitoBlocked", "disableUnlocked"}
  {
    KeyIf(before.blockedSites != after.blockedSites, "blockedSites")
    + KeyIf(before.strictBlocks != after.strictBlocks, "strictBlocks")
    + KeyIf(before.whitelist != after.whitelist, "whitelist")
    + KeyIf(before.focusSessions != after.focusSessions, "focusSessions")
    + KeyIf(before.incognitoBlocked != after.incognitoBlocked, "incognitoBlocked")
    + KeyIf(before.disableUnlocked != after.disableUnlocked, "disableUnlocked")
  }

  /** The key alone when its value changed, nothing otherwise. */
  function KeyIf(differs: bool, key: string): (keys: set<string>)
    ensures keys <= {key} && (key in keys <==> differs)
  {
    if differs then {key} else {}
  }

  /** Skipping recompilation loses nothing: a local change that does not
      trigger it leaves the compiled rules as they were. */
  lemma UntriggeredChangeKeepsRules(before: Snapshot, after: Snapshot, now: int)
    requires before.Valid() && after.Valid()
    requires !TriggersRecompile(ChangedKeys(before, after), "local")
    ensures CompileRules(after, now) == CompileRules(before, now)
  {
    assert before.blockedSites == after.blockedSites;
    assert before.strictBlocks == after.strictBlocks;
    assert before.focusSessions == after.focusSessions;
  }

  /** `strictBlocks[url].active = false` when the key is present: the entry
      and the key order stay, only the flag changes; nothing happens otherwise. */
  function EndStrict(strict: Dict<StrictBlock>, url: string): (d: Dict<StrictBlock>)
    requires strict.Valid()
    ensures d.Valid() && d.keys == strict.keys
    ensures forall u :: u in d.entries <==> u in strict.entries
    ensures forall u :: u in strict.entries && u != url ==> d.entries[u] == strict.entries[u]
    ensures url in strict.entries ==>
      (!d.entries[url].active && d.entries[url].expiry == strict.entries[url].expiry && d.entries[url].created == strict.entries[url].created)
  {
    if url in strict.entries then strict.Put(url, strict.entries[url].(active := false)) else strict
  }

  /** `focusSessions[id].active = false` when the key is present, with the
      same guarantees as `EndStrict`. */
  function EndSession(sessions: Dict<FocusSession>, sessionId: string): (d: Dict<FocusSession>)
    requires sessions.Valid()
    ensures d.Valid() && d.keys == sessions.keys
    ensures forall u :: u in d.entries <==> u in sessions.entries
    ensures forall u :: u in sessions.entries && u != sessionId ==> d.entries[u] == sessions.entries[u]
    ensures sessionId in sessions.entries ==>
      (!d.entries[sessionId].active && d.entries[sessionId] == sessions.entries[sessionId].(active := false))
  {
    if sessionId in sessions.entries then sessions.Put(sessionId, sessions.entries[sessionId].(active := false)) else sessions
  }

  /** The sessions after the loop of `startFocusSession` has visited the
      keys `ids` in order, switching off each active one. */
  function DeactivateKeys(sessions: Dict<FocusSession>, ids: seq<string>): (d: Dict<FocusSession>)
    requires sessions.Valid()
    ensures d.Valid() && d.keys == sessions.keys
  {
    if ids == [] then sessions
    else
      var id := ids[|ids| - 1];
      var d := DeactivateKeys(sessions, ids[..|ids| - 1]);
      if id in d.entries && d.entries[id].active then d.Put(id, d.entries[id].(active := false)) else d
  }

  /** The visited sessions are off; every other field and every other
      session is kept. */
  lemma {:induction false} DeactivateKeysEntries(sessions: Dict<FocusSession>, ids: seq<string>, k: string)
    requires sessions.Valid() && k in sessions.entries
    ensures var d := DeactivateKeys(sessions, ids);
      k in d.entries && d.entries[k] == if k in ids then sessions.entries[k].(active := false) else sessions.entries[k]
  {
    if ids != [] {
      var init := ids[..|ids| - 1];
      assert ids == init + [ids[|ids| - 1]];
      DeactivateKeysEntries(sessions, init, k);
    }
  }

  /** Every session switched off, nothing else changed. */
  function DeactivateAll(sessions: Dict<FocusSession>): (d: Dict<FocusSession>)
    requires sessions.Valid()
    ensures d.Valid() && d.keys == sessions.keys
    ensures d.entries.Keys == sessions.entries.Keys
    ensures forall k :: k in d.entries ==> d.entries[k] == sessions.entries[k].(active := false)
  {
    var d := DeactivateKeys(sessions, sessions.keys);
    assert forall k :: k in d.entries ==> d.entries[k] == sessions.entries[k].(active := false) by {
      forall k | k in d.entries
        ensures d.entries[k] == sessions.entries[k].(active := false)
      {
        DeactivateKeysEntries(sessions, sessions.keys, k);
      }
    }
    d
  }

  /** The sessions after `startFocusSession`: every old session switched
      off, then the new one stored under its id. */
  function StartSession(sessions: Dict<FocusSession>, sessionId: string, session: FocusSession): (d: Dict<FocusSession>)
    requires sessions.Valid()
    ensures d.Valid()
  {
    DeactivateAll(sessions).Put(sessionId, session)
  }

  /** The alarms of the sessions among `ids` that are active in `sessions`. */
  function ActiveAlarms(sessions: Dict<FocusSession>, ids: seq<string>): set<string>
    requires forall k :: k in ids ==> k in sessions.entries
  {
    if ids == [] then {}
    else
      var id := ids[|ids| - 1];
      ActiveAlarms(sessions, ids[..|ids| - 1]) + (if sessions.entries[id].active then {FocusAlarmName(id)} else {})
  }

  /** The backup as `checkStrictTimers` reads it: `indexedDBBlocks || {}`. */
  function BackupOrEmpty(backup: Option<Dict<StrictBlock>>): (d: Dict<StrictBlock>)
    requires backup.Some? ==> backup.value.Valid()
    ensures d.Valid()
  {
    match backup
    case None => EmptyDict()
    case Some(d) => d
  }

  /** The primary `strictBlocks` with each backup entry still in force at
      `now` copied over it, in backup key order. */
  function MergeLive(primary: Dict<StrictBlock>, keys: seq<string>, backup: map<string, StrictBlock>, now: int): (m: Dict<StrictBlock>)
    requires primary.Valid()
    requires forall k :: k in keys ==> k in backup
    ensures m.Valid()
  {
    if keys == [] then primary
    else
      var k := keys[|keys| - 1];
      var m := MergeLive(primary, keys[..|keys| - 1], backup, now);
      if IsLive(backup[k], now) then m.Put(k, backup[k]) else m
  }

  /** The alarms after re-arming `strict_<url>` for each backup entry still
      in force, at its expiry. */
  function RearmLive(alarms: map<string, int>, keys: seq<string>, backup: map<string, StrictBlock>, now: int): map<string, int>
    requires forall k :: k in keys ==> k in backup
  {
    if keys == [] then alarms
    else
      var k := keys[|keys| - 1];
      var a := RearmLive(alarms, keys[..|keys| - 1], backup, now);
      if IsLive(backup[k], now) then a[StrictAlarmName(k) := backup[k].expiry] else a
  }

  /** The merge restores every backup entry in force and keeps every other
      primary entry as it was; no other key appears. */
  lemma {:induction false} MergeLiveEntries(primary: Dict<StrictBlock>, keys: seq<string>, backup: map<string, StrictBlock>, now: int, u: string)
    requires primary.Valid()
    requires forall k :: k in keys ==> k in backup
    ensures var m := MergeLive(primary, keys, backup, now);
      && (u in m.entries <==> u in primary.entries || (u in keys && IsLive(backup[u], now)))
      && (u in keys && IsLive(backup[u], now) ==> m.entries[u] == backup[u])
      && (u in primary.entries && !(u in keys && IsLive(backup[u], now)) ==> m.entries[u] == primary.entries[u])
  {
    if keys != [] {
      var init := keys[..|keys| - 1];
      assert keys == init + [keys[|keys| - 1]];
      MergeLiveEntries(primary, init, backup, now, u);
    }
  }

  /** Re-arming sets the alarm of every backup entry in force to its expiry
      and leaves every alarm that is not a strict-block alarm alone. */
  lemma {:induction false} RearmLiveAlarms(alarms: map<string, int>, keys: seq<string>, backup: map<string, StrictBlock>, now: int, u: string, other: string)
    requires forall k :: k in keys ==> k in backup
    ensures var a := RearmLive(alarms, keys, backup, now);
      && (u in keys && IsLive(backup[u], now) ==> StrictAlarmName(u) in a && a[StrictAlarmName(u)] == backup[u].expiry)
      && (!StartsWith(other, "strict_") ==> (other in a <==> other in alarms) && (other in alarms ==> a[other] == alarms[other]))
  {
    if keys != [] {
      var init := keys[..|keys| - 1];
      var k := keys[|keys| - 1];
      assert keys == init + [k];
      RearmLiveAlarms(alarms, init, backup, now, u, other);
      assert StartsWith(StrictAlarmName(k), "strict_") by {
        assert StrictAlarmName(k)[..7] == "strict_";
      }
      if u in keys && IsLive(backup[u], now) && u != k && IsLive(backup[k], now) {
        if StrictAlarmName(k) == StrictAlarmName(u) {
          StrictAlarmNameInjective(k, u);
        }
      }
    }
  }

  /** After the merge every backup entry in force is in force in
      `strictBlocks`, so the rule compiler emits its strict rule again. */
  lemma MergeRestoresStrictRules(snap: Snapshot, backup: Dict<StrictBlock>, now: int, url: string)
    requires snap.Valid() && backup.Valid()
    requires url in backup.entries && IsLive(backup.entries[url], now)
    ensures var merged := snap.(strictBlocks := MergeLive(snap.strictBlocks, backup.keys, backup.entries, now));
      var rules := CompileRules(merged, now);
      exists i :: 0 <= i < |rules| && rules[i] == StrictRule(i + 1, url)
  {
    var merged := snap.(strictBlocks := MergeLive(snap.strictBlocks, backup.keys, backup.entries, now));
    MergeLiveEntries(snap.strictBlocks, backup.keys, backup.entries, now, url);
    CompiledStrictRule(merged, now, url);
  }

  /** After a strict block of positive duration is added, the compiler emits
      its strict rule and no normal rule for that url. */
  lemma AddedStrictBlockCompiles(snap: Snapshot, url: string, duration: int, now: int)
    requires snap.Valid() && duration > 0
    ensures var after := snap.(strictBlocks := snap.strictBlocks.Put(url, StrictBlock(true, now + duration, now)));
      var rules := CompileRules(after, now);
      && (exists i :: 0 <= i < |rules| && rules[i] == StrictRule(i + 1, url))
      && (forall i :: 0 <= i < |rules| ==> rules[i] != NormalRule(i + 1, url))
  {
    var after := snap.(strictBlocks := snap.strictBlocks.Put(url, StrictBlock(true, now + duration, now)));
    CompiledStrictRule(after, now, url);
    CompiledNormalRule(after, now, url);
  }

  /** Once a strict block has been switched off (its alarm fired), no rule
      for its url is compiled, at any time: the kept entry suppresses the
      normal rule too. */
  lemma EndedStrictBlockUnblocks(snap: Snapshot, url: string, now: int)
    requires snap.Valid() && url in snap.strictBlocks.entries
    ensures var after := snap.(strictBlocks := EndStrict(snap.strictBlocks, url));
      var rules := CompileRules(after, now);
      forall i :: 0 <= i < |rules| ==> rules[i] != NormalRule(i + 1, url) && rules[i] != StrictRule(i + 1, url)
  {
    var after := snap.(strictBlocks := EndStrict(snap.strictBlocks, url));
    ExpiredStrictUnblocks(after, now, url);
  }

  /** When exactly one element passes, filtering yields just that element. */
  lemma {:induction false} FilterSingle<T(!new)>(xs: seq<T>, keep: T -> bool, j: int)
    requires 0 <= j < |xs| && keep(xs[j])
    requires forall i :: 0 <= i < |xs| && i != j ==> !keep(xs[i])
    ensures Filter(xs, keep) == [xs[j]]
  {
    if j == 0 {
      assert forall i :: 0 <= i < |xs[1..]| ==> !keep(xs[1..][i]) by {
        forall i | 0 <= i < |xs[1..]| ensures !keep(xs[1..][i]) {
          assert xs[1..][i] == xs[i + 1];
        }
      }
      FilterNone(xs[1..], keep);
    } else {
      assert !keep(xs[0]);
      forall i | 0 <= i < |xs[1..]| && i != j - 1
        ensures !keep(xs[1..][i])
      {
        assert xs[1..][i] == xs[i + 1];
      }
      FilterSingle(xs[1..], keep, j - 1);
    }
  }

  lemma {:induction false} FilterNone<T(!new)>(xs: seq<T>, keep: T -> bool)
    requires forall i :: 0 <= i < |xs| ==> !keep(xs[i])
    ensures Filter(xs, keep) == []
  {
    if xs != [] {
      assert !keep(xs[0]);
      FilterNone(xs[1..], keep);
    }
  }

  /** After `startFocusSession`, the new session is the only active one. */
  lemma StartLeavesOneActive(sessions: Dict<FocusSession>, sessionId: string, session: FocusSession)
    requires sessions.Valid() && session.active
    ensures var after := StartSession(sessions, sessionId, session);
      && (forall k :: k in after.entries ==> (after.entries[k].active <==> k == sessionId))
      && ActiveSessions(after) == [session]
  {
    StartActiveFlags(sessions, sessionId, session);
    StartActiveList(sessions, sessionId, session);
  }

  lemma StartActiveFlags(sessions: Dict<FocusSession>, sessionId: string, session: FocusSession)
    requires sessions.Valid() && session.active
    ensures var after := StartSession(sessions, sessionId, session);
      forall k :: k in after.entries ==> (after.entries[k].active <==> k == sessionId)
  {
  }

  lemma StartActiveList(sessions: Dict<FocusSession>, sessionId: string, session: FocusSession)
    requires sessions.Valid() && session.active
    ensures ActiveSessions(StartSession(sessions, sessionId, session)) == [session]
  {
    var after := StartSession(sessions, sessionId, session);
    StartActiveFlags(sessions, sessionId, session);
    var vs := after.Values();
    assert sessionId in after.keys;
    var j :| 0 <= j < |after.keys| && after.keys[j] == sessionId;
    forall i | 0 <= i < |vs| && i != j
      ensures !IsActive(vs[i])
    {
      if i < j { UniquePositions(after.keys, i, j); } else { UniquePositions(after.keys, j, i); }
    }
    FilterSingle(vs, IsActive, j);
  }

  /** Starting a session makes the compiler emit, last, a focus rule that
      excludes exactly the new session's whitelist. */
  lemma StartedSessionCompiles(snap: Snapshot, sessionId: string, session: FocusSession, now: int)
    requires snap.Valid() && session.active
    ensures var after := snap.(focusSessions := StartSession(snap.focusSessions, sessionId, session));
      var rules := CompileRules(after, now);
      |rules| > 0 && rules[|rules| - 1] == FocusRule(|rules|, session.whitelist)
  {
    var after := snap.(focusSessions := StartSession(snap.focusSessions, sessionId, session));
    StartLeavesOneActive(snap.focusSessions, sessionId, session);
    CompiledFocusRule(after, now);
    var rules := CompileRules(after, now);
    var i :| 0 <= i < |rules| && rules[i].priority == 3;
  }

  lemma WithIdsAppend(rs: seq<Rule>, r: Rule, first: int)
    ensures WithIds(rs + [r], first) == WithIds(rs, first) + [r.(id := first + |rs|)]
  {
    assert (rs + [r])[|rs|] == r;
  }

  /** One step of that loop on the specification side: the next key has
      not been visited yet ... */
  lemma EndActiveStepUnvisited(sessions: Dict<FocusSession>, i: int)
    requires sessions.Valid() && 0 <= i < |sessions.keys|
    ensures var id := sessions.keys[i];
      var ended := DeactivateKeys(sessions, sessions.keys[..i]);
      id in ended.entries && ended.entries[id] == sessions.entries[id]
  {
    var ids := sessions.keys;
    UniqueAt(ids, i);
    DeactivateKeysEntries(sessions, ids[..i], ids[i]);
  }

  /** ... visiting it switches it off when active ... */
  lemma EndActiveStepSessions(sessions: Dict<FocusSession>, i: int)
    requires sessions.Valid() && 0 <= i < |sessions.keys|
    ensures var id := sessions.keys[i];
      var ended := DeactivateKeys(sessions, sessions.keys[..i]);
      DeactivateKeys(sessions, sessions.keys[..i + 1]) ==
        (if id in ended.entries && ended.entries[id].active then ended.Put(id, ended.entries[id].(active := false)) else ended)
  {
    var pre := sessions.keys[..i + 1];
    assert pre != [] && |pre| - 1 == i;
    assert pre[..|pre| - 1] == sessions.keys[..i];
    assert pre[|pre| - 1] == sessions.keys[i];
  }

  /** ... and adds its alarm to the cleared ones when it was active. */
  lemma EndActiveStepAlarms(sessions: Dict<FocusSession>, i: int)
    requires sessions.Valid() && 0 <= i < |sessions.keys|
    ensures var id := sessions.keys[i];
      ActiveAlarms(sessions, sessions.keys[..i + 1]) ==
        ActiveAlarms(sessions, sessions.keys[..i]) + (if sessions.entries[id].active then {FocusAlarmName(id)} else {})
  {
    var pre := sessions.keys[..i + 1];
    assert pre != [] && |pre| - 1 == i;
    assert pre[..|pre| - 1] == sessions.keys[..i];
    assert pre[|pre| - 1] == sessions.keys[i];
  }

  /** The session side of one loop step, as the loop below needs it. */
  lemma EndActiveStepState(sessions: Dict<FocusSession>, i: int)
    requires sessions.Valid() && 0 <= i < |sessions.keys|
    ensures var id := sessions.keys[i];
      var ended := DeactivateKeys(sessions, sessions.keys[..i]);
      && id in ended.entries
      && ended.entries[id].active == sessions.entries[id].active
      && DeactivateKeys(sessions, sessions.keys[..i + 1]) ==
           (if ended.entries[id].active then ended.Put(id, ended.entries[id].(active := false)) else ended)
  {
    EndActiveStepUnvisited(sessions, i);
    EndActiveStepSessions(sessions, i);
  }

  /** The alarm side of one loop step. */
  lemma EndActiveStepCleared(sessions: Dict<FocusSession>, alarms: map<string, int>, i: int)
    requires sessions.Valid() && 0 <= i < |sessions.keys|
    ensures var id := sessions.keys[i];
      var remaining := alarms - ActiveAlarms(sessions, sessions.keys[..i]);
      alarms - ActiveAlarms(sessions, sessions.keys[..i + 1]) ==
        (if sessions.entries[id].active then remaining - {FocusAlarmName(id)} else remaining)
  {
    var id := sessions.keys[i];
    var before := ActiveAlarms(sessions, sessions.keys[..i]);
    EndActiveStepAlarms(sessions, i);
    if sessions.entries[id].active {
      assert (alarms - before) - {FocusAlarmName(id)} == alarms - (before + {FocusAlarmName(id)});
    } else {
      assert before + {} == before;
    }
  }

  /** A loop step at an active session switches it off and clears its alarm. */
  lemma EndActiveOn(sessions: Dict<FocusSession>, alarms: map<string, int>, i: int,
                    ended: Dict<FocusSession>, remaining: map<string, int>)
    requires sessions.Valid() && 0 <= i < |sessions.keys| && sessions.entries[sessions.keys[i]].active
    requires ended == DeactivateKeys(sessions, sessions.keys[..i])
    requires remaining == alarms - ActiveAlarms(sessions, sessions.keys[..i])
    ensures var id := sessions.keys[i];
      && id in ended.entries
      && ended.Put(id, ended.entries[id].(active := false)) == DeactivateKeys(sessions, sessions.keys[..i + 1])
      && remaining - {FocusAlarmName(id)} == alarms - ActiveAlarms(sessions, sessions.keys[..i + 1])
  {
    EndActiveStepState(sessions, i);
    EndActiveStepCleared(sessions, alarms, i);
  }

  /** A loop step at an inactive session changes nothing. */
  lemma EndActiveOff(sessions: Dict<FocusSession>, alarms: map<string, int>, i: int,
                     ended: Dict<FocusSession>, remaining: map<string, int>)
    requires sessions.Valid() && 0 <= i < |sessions.keys| && !sessions.entries[sessions.keys[i]].active
    requires ended == DeactivateKeys(sessions, sessions.keys[..i])
    requires remaining == alarms - ActiveAlarms(sessions, sessions.keys[..i])
    ensures ended == DeactivateKeys(sessions, sessions.keys[..i + 1])
    ensures remaining == alarms - ActiveAlarms(sessions, sessions.keys[..i + 1])
  {
    EndActiveStepState(sessions, i);
    EndActiveStepCleared(sessions, alarms, i);
  }

  /** The loop of `startFocusSession` that ends the running sessions: it
      visits the keys in order, switches off each active session and
      clears its alarm. */
  method EndActiveSessions(sessions: Dict<FocusSession>, alarms: map<string, int>) returns (ended: Dict<FocusSession>, remaining: map<string, int>)
    requires sessions.Valid()
    ensures ended == DeactivateAll(sessions)
    ensures remaining == alarms - ActiveAlarms(sessions, sessions.keys)
  {
    ended := sessions;
    remaining := alarms;
    var ids := sessions.keys;
    var i := 0;
    assert ids[..0] == [];
    assert remaining == alarms - {};
    while i < |ids|
      invariant 0 <= i <= |ids|
      invariant ended == DeactivateKeys(sessions, ids[..i])
      invariant remaining == alarms - ActiveAlarms(sessions, ids[..i])
    {
      var id := ids[i];
      EndActiveStepUnvisited(sessions, i);
      if ended.entries[id].active {
        EndActiveOn(sessions, alarms, i, ended, remaining);
        ended := ended.Put(id, ended.entries[id].(active := false));
        remaining := remaining - {FocusAlarmName(id)};
      } else {
        EndActiveOff(sessions, alarms, i, ended, remaining);
      }
      i := i + 1;
    }
    assert ids[..i] == ids;
  }

  lemma NormalRulesStep(sites: seq<BlockedSite>, strict: map<string, StrictBlock>, i: int)
    requires 0 <= i < |sites|
    ensures NormalRules(sites[..i + 1], strict) ==
      NormalRules(sites[..i], strict) + (if sites[i].url in strict then [] else [NormalRule(0, sites[i].url)])
  {
    var pre := sites[..i + 1];
    assert pre != [] && |pre| - 1 == i;
    assert pre[..|pre| - 1] == sites[..i];
    assert pre[|pre| - 1] == sites[i];
  }

  /** A site without a strict entry adds its normal rule ... */
  lemma NormalRulesAdd(sites: seq<BlockedSite>, strict: map<string, StrictBlock>, i: int)
    requires 0 <= i < |sites| && sites[i].url !in strict
    ensures NormalRules(sites[..i + 1], strict) == NormalRules(sites[..i], strict) + [NormalRule(0, sites[i].url)]
  {
    NormalRulesStep(sites, strict, i);
  }

  /** ... and one with a strict entry adds nothing. */
  lemma NormalRulesSkip(sites: seq<BlockedSite>, strict: map<string, StrictBlock>, i: int)
    requires 0 <= i < |sites| && sites[i].url in strict
    ensures NormalRules(sites[..i + 1], strict) == NormalRules(sites[..i], strict)
  {
    NormalRulesStep(sites, strict, i);
    assert NormalRules(sites[..i], strict) + [] == NormalRules(sites[..i], strict);
  }

  lemma StrictRulesStep(strict: Dict<StrictBlock>, now: int, j: int)
    requires strict.Valid() && 0 <= j < |strict.keys|
    ensures StrictRules(strict.keys[..j + 1], strict.entries, now) ==
      StrictRules(strict.keys[..j], strict.entries, now)
        + (if IsLive(strict.entries[strict.keys[j]], now) then [StrictRule(0, strict.keys[j])] else [])
  {
    var pre := strict.keys[..j + 1];
    assert pre != [] && |pre| - 1 == j;
    assert pre[..|pre| - 1] == strict.keys[..j];
    assert pre[|pre| - 1] == strict.keys[j];
  }

  /** A separate lemma keeps this fact out of the loop body of
      `PushStrictRules`, whose proof it would otherwise make costly. */
  lemma ConcatAssoc<T>(a: seq<T>, b: seq<T>, c: seq<T>)
    ensures a + (b + c) == (a + b) + c
  {
  }

  /** The first loop of `loadBlockingRules`: one normal rule per blocked
      site without a strict entry, numbered by a running `ruleId` from 1. */
  method PushNormalRules(sites: seq<BlockedSite>, strict: map<string, StrictBlock>) returns (rules: seq<Rule>, ruleId: int)
    ensures rules == WithIds(NormalRules(sites, strict), 1)
    ensures ruleId == |rules| + 1
  {
    rules := [];
    ruleId := 1;
    ghost var done: seq<Rule> := [];
    var i := 0;
    assert sites[..0] == [];
    while i < |sites|
      invariant 0 <= i <= |sites|
      invariant done == NormalRules(sites[..i], strict)
      invariant Numbered(rules, done)
      invariant ruleId == |rules| + 1
    {
      var url := sites[i].url;
      if url !in strict {
        NormalRulesAdd(sites, strict, i);
        NumberedAppend(rules, done, NormalRule(0, url));
        rules := rules + [NormalRule(ruleId, url)];
        done := done + [NormalRule(0, url)];
        ruleId := ruleId + 1;
      } else {
        NormalRulesSkip(sites, strict, i);
      }
      i := i + 1;
    }
    assert sites[..i] == sites;
    NumberedIsWithIds(rules, done);
  }

  /** The second loop of `loadBlockingRules`: one strict rule per entry in
      force at `now`, in key order, numbered on after `before`. */
  method PushStrictRules(strict: Dict<StrictBlock>, now: int, ghost before: seq<Rule>, rules0: seq<Rule>, ruleId0: int)
    returns (rules: seq<Rule>, ruleId: int)
    requires strict.Valid()
    requires rules0 == WithIds(before, 1) && ruleId0 == |rules0| + 1
    ensures rules == WithIds(before + StrictRules(strict.keys, strict.entries, now), 1)
    ensures ruleId == |rules| + 1
  {
    rules := rules0;
    ruleId := ruleId0;
    ghost var done := before;
    var j := 0;
    PushStrictNone(strict, now, before);
    WithIdsNumbered(before);
    while j < |strict.keys|
      invariant 0 <= j <= |strict.keys|
      invariant done == before + StrictRules(strict.keys[..j], strict.entries, now)
      invariant Numbered(rules, done)
      invariant ruleId == |rules| + 1
    {
      var url := strict.keys[j];
      var block := strict.entries[url];
      StrictRulesStep(strict, now, j);
      if block.active && block.expiry > now {
        NumberedAppend(rules, done, StrictRule(0, url));
        ConcatAssoc(before, StrictRules(strict.keys[..j], strict.entries, now), [StrictRule(0, url)]);
        rules := rules + [StrictRule(ruleId, url)];
        done := done + [StrictRule(0, url)];
        ruleId := ruleId + 1;
      } else {
        assert StrictRules(strict.keys[..j], strict.entries, now) + [] == StrictRules(strict.keys[..j], strict.entries, now);
      }
      j := j + 1;
    }
    PushStrictAll(strict, now, before);
    NumberedIsWithIds(rules, done);
  }

  /** The strict loop's invariant on entry and, below, on exit, kept out
      of `PushStrictRules` like `ConcatAssoc`. */
  lemma PushStrictNone(strict: Dict<StrictBlock>, now: int, before: seq<Rule>)
    requires strict.Valid()
    ensures before + StrictRules(strict.keys[..0], strict.entries, now) == before
  {
    assert strict.keys[..0] == [];
  }

  lemma PushStrictAll(strict: Dict<StrictBlock>, now: int, before: seq<Rule>)
    requires strict.Valid()
    ensures before + StrictRules(strict.keys[..|strict.keys|], strict.entries, now)
      == before + StrictRules(strict.keys, strict.entries, now)
  {
    assert strict.keys[..|strict.keys|] == strict.keys;
  }

  /** Some key of the list holds a backup entry in force. */
  predicate AnyLive(keys: seq<string>, backup: map<string, StrictBlock>, now: int)
    requires forall k :: k in keys ==> k in backup
  {
    exists k :: k in keys && IsLive(backup[k], now)
  }

  lemma AnyLiveStep(source: Dict<StrictBlock>, now: int, i: int)
    requires source.Valid() && 0 <= i < |source.keys|
    ensures AnyLive(source.keys[..i + 1], source.entries, now)
      <==> AnyLive(source.keys[..i], source.entries, now) || IsLive(source.entries[source.keys[i]], now)
  {
    var pre := source.keys[..i + 1];
    assert pre == source.keys[..i] + [source.keys[i]];
  }

  lemma AnyLiveAll(source: Dict<StrictBlock>, now: int)
    requires source.Valid()
    ensures AnyLive(source.keys, source.entries, now) <==> exists u :: u in source.entries && IsLive(source.entries[u], now)
  {
  }

  lemma MergeStepLive(primary: Dict<StrictBlock>, source: Dict<StrictBlock>, alarms: map<string, int>, now: int, i: int)
    requires primary.Valid() && source.Valid() && 0 <= i < |source.keys|
    requires IsLive(source.entries[source.keys[i]], now)
    ensures var url := source.keys[i];
      && MergeLive(primary, source.keys[..i + 1], source.entries, now)
           == MergeLive(primary, source.keys[..i], source.entries, now).Put(url, source.entries[url])
      && RearmLive(alarms, source.keys[..i + 1], source.entries, now)
           == RearmLive(alarms, source.keys[..i], source.entries, now)[StrictAlarmName(url) := source.entries[url].expiry]
  {
    var pre := source.keys[..i + 1];
    assert pre != [] && |pre| - 1 == i;
    assert pre[..|pre| - 1] == source.keys[..i];
    assert pre[|pre| - 1] == source.keys[i];
  }

  lemma MergeStepExpired(primary: Dict<StrictBlock>, source: Dict<StrictBlock>, alarms: map<string, int>, now: int, i: int)
    requires primary.Valid() && source.Valid() && 0 <= i < |source.keys|
    requires !IsLive(source.entries[source.keys[i]], now)
    ensures MergeLive(primary, source.keys[..i + 1], source.entries, now) == MergeLive(primary, source.keys[..i], source.entries, now)
    ensures RearmLive(alarms, source.keys[..i + 1], source.entries, now) == RearmLive(alarms, source.keys[..i], source.entries, now)
  {
    var pre := source.keys[..i + 1];
    assert pre != [] && |pre| - 1 == i;
    assert pre[..|pre| - 1] == source.keys[..i];
    assert pre[|pre| - 1] == source.keys[i];
  }

  /** The loop of `checkStrictTimers`: copies each backup entry in force
      over the primary map and re-arms its alarm; `updated` records whether
      any was copied. */
  method MergeBackup(primary: Dict<StrictBlock>, source: Dict<StrictBlock>, alarms: map<string, int>, now: int)
    returns (merged: Dict<StrictBlock>, rearmed: map<string, int>, updated: bool)
    requires primary.Valid() && source.Valid()
    ensures merged == MergeLive(primary, source.keys, source.entries, now)
    ensures rearmed == RearmLive(alarms, source.keys, source.entries, now)
    ensures updated <==> exists u :: u in source.entries && IsLive(source.entries[u], now)
    ensures !updated ==> merged == primary
  {
    merged := primary;
    rearmed := alarms;
    updated := false;
    var keys := source.keys;
    var i := 0;
    assert keys[..0] == [];
    while i < |keys|
      invariant 0 <= i <= |keys|
      invariant merged == MergeLive(primary, keys[..i], source.entries, now)
      invariant rearmed == RearmLive(alarms, keys[..i], source.entries, now)
      invariant updated == AnyLive(keys[..i], source.entries, now)
      invariant !updated ==> merged == primary
    {
      var url := keys[i];
      var block := source.entries[url];
      AnyLiveStep(source, now, i);
      if block.active && block.expiry > now {
        MergeStepLive(primary, source, alarms, now, i);
        merged := merged.Put(url, block);
        rearmed := rearmed[StrictAlarmName(url) := block.expiry];
        updated := true;
      } else {
        MergeStepExpired(primary, source, alarms, now, i);
      }
      i := i + 1;
    }
    assert keys[..i] == keys;
    AnyLiveAll(source, now);
  }

  /** The alarms after `startFocusSession`: every active session's alarm
      cleared, the new session's alarm set to its expiry. */
  function StartAlarms(alarms: map<string, int>, sessions: Dict<FocusSession>, sessionId: string, expiry: int): (scheduled: map<string, int>)
    requires sessions.Valid()
    ensures FocusAlarmName(sessionId) in scheduled && scheduled[FocusAlarmName(sessionId)] == expiry
  {
    (alarms - ActiveAlarms(sessions, sessions.keys))[FocusAlarmName(sessionId) := expiry]
  }

  /** Different sessions have different focus alarms. */
  lemma FocusAlarmNameInjective(u: string, v: string)
    requires FocusAlarmName(u) == FocusAlarmName(v)
    ensures u == v
  {
    assert u == FocusAlarmName(u)[6..];
    assert v == FocusAlarmName(v)[6..];
  }

  /** The alarms cleared for `ids` are exactly those of its active sessions. */
  lemma {:induction false} ActiveAlarmsMembership(sessions: Dict<FocusSession>, ids: seq<string>, name: string)
    requires forall k :: k in ids ==> k in sessions.entries
    ensures name in ActiveAlarms(sessions, ids) <==>
      exists k :: k in ids && sessions.entries[k].active && name == FocusAlarmName(k)
  {
    if ids != [] {
      var init := ids[..|ids| - 1];
      var last := ids[|ids| - 1];
      assert ids == init + [last];
      ActiveAlarmsMembership(sessions, init, name);
    }
  }

  /** `startFocusSession` clears the alarm of every other session that was
      active, schedules the new session's alarm, and leaves every alarm
      that is not a focus alarm as it was. */
  lemma StartAlarmsEffect(alarms: map<string, int>, sessions: Dict<FocusSession>, sessionId: string, expiry: int, id: string, name: string)
    requires sessions.Valid()
    ensures var scheduled := StartAlarms(alarms, sessions, sessionId, expiry);
      && (id in sessions.entries && sessions.entries[id].active && id != sessionId ==> FocusAlarmName(id) !in scheduled)
      && (!StartsWith(name, "focus_") ==> (name in scheduled <==> name in alarms) && (name in alarms ==> scheduled[name] == alarms[name]))
  {
    if id in sessions.entries && sessions.entries[id].active && id != sessionId {
      ActiveAlarmsMembership(sessions, sessions.keys, FocusAlarmName(id));
      if FocusAlarmName(id) == FocusAlarmName(sessionId) {
        FocusAlarmNameInjective(id, sessionId);
      }
    }
    if !StartsWith(name, "focus_") {
      ActiveAlarmsMembership(sessions, sessions.keys, name);
      forall k | k in sessions.keys
        ensures name != FocusAlarmName(k)
      {
        assert FocusAlarmName(k)[..6] == "focus_";
      }
      assert name != FocusAlarmName(sessionId) by {
        assert FocusAlarmName(sessionId)[..6] == "focus_";
      }
    }
  }

  /** The body of `startFocusSession` on values: end the running sessions,
      then store the new one and schedule its alarm at its expiry. */
  method ReplaceSessions(sessions: Dict<FocusSession>, alarms: map<string, int>, sessionId: string, session: FocusSession, expiry: int)
    returns (started: Dict<FocusSession>, scheduled: map<string, int>)
    requires sessions.Valid() && expiry == session.expiry
    ensures started == StartSession(sessions, sessionId, session)
    ensures scheduled == StartAlarms(alarms, sessions, sessionId, expiry)
  {
    var ended, remaining := EndActiveSessions(sessions, alarms);
    started := ended.Put(sessionId, session);
    scheduled := remaining[FocusAlarmName(sessionId) := session.expiry];
  }

  /** The browser-side state the background worker drives: the shared
      storage, the pending alarms (name to due time) and the installed
      dynamic rules. */
  class FocusGuardCore {
    const store: LocalStore
    var alarms: map<string, int>
    var installed: seq<Rule>

    /** The worker attaches to the browser's storage, alarms and dynamic
        rules as they are: all three outlive a restart of the worker. */
    constructor (store: LocalStore, alarms: map<string, int>, installed: seq<Rule>)
      ensures this.store == store && this.alarms == alarms && this.installed == installed
    {
      this.store := store;
      this.alarms := alarms;
      this.installed := installed;
    }

    /** `loadBlockingRules`: builds the list with a running `ruleId` and
        replaces every installed rule with it. */
    method LoadBlockingRules(now: int)
      requires store.snapshot.Valid()
      modifies this`installed
      ensures installed == CompileRules(store.snapshot, now)
    {
      var snap := store.snapshot;
      var rules, ruleId := PushNormalRules(snap.blockedSites, snap.strictBlocks.entries);
      ghost var normal := NormalRules(snap.blockedSites, snap.strictBlocks.entries);
      rules, ruleId := PushStrictRules(snap.strictBlocks, now, normal, rules, ruleId);
      ghost var upToFocus := normal + StrictRules(snap.strictBlocks.keys, snap.strictBlocks.entries, now);

      var active := ActiveSessions(snap.focusSessions);
      if |active| > 0 {
        WithIdsAppend(upToFocus, FocusRule(0, active[0].whitelist), 1);
        rules := rules + [FocusRule(ruleId, active[0].whitelist)];
        ruleId := ruleId + 1;
      } else {
        assert upToFocus + FocusRules(snap.focusSessions) == upToFocus;
      }
      installed := rules;
    }

    /** `addStrictBlock`: stores an active block until `now + duration`
        under `url` (replacing any previous one) and schedules its alarm.
        An expiry a `Date` cannot hold makes `toISOString` throw before
        anything is stored or scheduled; `ok` reports which case ran. */
    method AddStrictBlock(url: string, duration: int, now: int) returns (ok: bool)
      requires store.snapshot.Valid()
      modifies store, this`alarms
      ensures ok <==> IsValidTime(now + duration)
      ensures ok ==> store.snapshot == old(store.snapshot).(strictBlocks := old(store.snapshot.strictBlocks).Put(url, StrictBlock(true, now + duration, now)))
      ensures ok ==> alarms == old(alarms)[StrictAlarmName(url) := now + duration]
      ensures !ok ==> store.snapshot == old(store.snapshot) && alarms == old(alarms)
      ensures store.snapshot.Valid()
    {
      ok := IsValidTime(now + duration);
      if ok {
        StoreStrictBlock(url, now + duration, now);
      }
    }

    /** The part of `addStrictBlock` after the expiry has been checked:
        stores the block and schedules its alarm. */
    method StoreStrictBlock(url: string, expiry: int, now: int)
      requires store.snapshot.Valid()
      modifies store, this`alarms
      ensures store.snapshot == old(store.snapshot).(strictBlocks := old(store.snapshot.strictBlocks).Put(url, StrictBlock(true, expiry, now)))
      ensures store.snapshot.Valid()
      ensures alarms == old(alarms)[StrictAlarmName(url) := expiry]
    {
      var strict := store.snapshot.strictBlocks;
      strict := strict.Put(url, StrictBlock(true, expiry, now));
      store.snapshot := store.snapshot.(strictBlocks := strict);
      alarms := alarms[StrictAlarmName(url) := expiry];
    }

    /** `removeStrictBlock`: switches the block off and clears its alarm
        when `url` has an entry; otherwise changes nothing. */
    method RemoveStrictBlock(url: string)
      requires store.snapshot.Valid()
      modifies store, this`alarms
      ensures store.snapshot == old(store.snapshot).(strictBlocks := EndStrict(old(store.snapshot.strictBlocks), url))
      ensures store.snapshot.Valid()
      ensures alarms == if url in old(store.snapshot.strictBlocks.entries) then old(alarms) - {StrictAlarmName(url)} else old(alarms)
    {
      var strict := store.snapshot.strictBlocks;
      if url in strict.entries {
        strict := strict.Put(url, strict.entries[url].(active := false));
        store.snapshot := store.snapshot.(strictBlocks := strict);
        alarms := alarms - {StrictAlarmName(url)};
      }
    }

    /** `startFocusSession`: switches off every active session and clears
        its alarm, then stores the new active session and schedules its
        alarm; returns the new session's id. An expiry a `Date` cannot hold
        makes `toISOString` throw after the loop: the alarms of the active
        sessions are already cleared, but nothing is stored or scheduled
        and no id is returned. */
    method StartFocusSession(duration: int, whitelist: seq<string>, now: int) returns (sessionId: Option<string>)
      requires store.snapshot.Valid()
      modifies store, this`alarms
      ensures sessionId.Some? <==> IsValidTime(now + duration)
      ensures sessionId.Some? ==> sessionId.value == SessionId(now)
      ensures sessionId.Some? ==> store.snapshot == old(store.snapshot).(focusSessions :=
        StartSession(old(store.snapshot.focusSessions), SessionId(now), FocusSession(true, now + duration, whitelist, now)))
      ensures sessionId.Some? ==> alarms == StartAlarms(old(alarms), old(store.snapshot.focusSessions), SessionId(now), now + duration)
      ensures sessionId.None? ==> store.snapshot == old(store.snapshot)
      ensures sessionId.None? ==> alarms == old(alarms) - ActiveAlarms(old(store.snapshot.focusSessions), old(store.snapshot.focusSessions.keys))
      ensures store.snapshot.Valid()
    {
      var id := SessionId(now);
      var expiry := now + duration;
      var snap := store.snapshot;
      if !IsValidTime(expiry) {
        var _, remaining := EndActiveSessions(snap.focusSessions, alarms);
        alarms := remaining;
        return None;
      }
      var session := FocusSession(true, expiry, whitelist, now);
      var sessions, remaining := ReplaceSessions(snap.focusSessions, alarms, id, session, expiry);
      store.snapshot := snap.(focusSessions := sessions);
      alarms := remaining;
      sessionId := Some(id);
    }

    /** `endFocusSession`: switches the session off and clears its alarm
        when it exists; otherwise changes nothing. */
    method EndFocusSession(sessionId: string)
      requires store.snapshot.Valid()
      modifies store, this`alarms
      ensures store.snapshot == old(store.snapshot).(focusSessions := EndSession(old(store.snapshot.focusSessions), sessionId))
      ensures store.snapshot.Valid()
      ensures alarms == if sessionId in old(store.snapshot.focusSessions.entries) then old(alarms) - {FocusAlarmName(sessionId)} else old(alarms)
    {
      var sessions := store.snapshot.focusSessions;
      if sessionId in sessions.entries {
        sessions := sessions.Put(sessionId, sessions.entries[sessionId].(active := false));
        store.snapshot := store.snapshot.(focusSessions := sessions);
        alarms := alarms - {FocusAlarmName(sessionId)};
      }
    }

    /** `handleAlarm`: a `strict_` alarm ends that strict block, a `focus_`
        alarm ends that session, any other alarm is ignored. */
    method HandleAlarm(name: string)
      requires store.snapshot.Valid()
      modifies store, this`alarms
      ensures store.snapshot.Valid()
      ensures DecodeAlarm(name).StrictExpired? ==>
        var url := DecodeAlarm(name).url;
        && store.snapshot == old(store.snapshot).(strictBlocks := EndStrict(old(store.snapshot.strictBlocks), url))
        && alarms == if url in old(store.snapshot.strictBlocks.entries) then old(alarms) - {name} else old(alarms)
      ensures DecodeAlarm(name).FocusExpired? ==>
        var id := DecodeAlarm(name).sessionId;
        && store.snapshot == old(store.snapshot).(focusSessions := EndSession(old(store.snapshot.focusSessions), id))
        && alarms == if id in old(store.snapshot.focusSessions.entries) then old(alarms) - {name} else old(alarms)
      ensures DecodeAlarm(name).Unrelated? ==> store.snapshot == old(store.snapshot) && alarms == old(alarms)
    {
      match DecodeAlarm(name)
      case StrictExpired(url) => RemoveStrictBlock(url);
      case FocusExpired(id) => EndFocusSession(id);
      case Unrelated =>
    }

    /** `handleStorageChange`: recompiles exactly when a rule key changed
        in the local area. */
    method HandleStorageChange(changedKeys: set<string>, namespace: string, now: int)
      requires store.snapshot.Valid()
      modifies this`installed
      ensures TriggersRecompile(changedKeys, namespace) ==> installed == CompileRules(store.snapshot, now)
      ensures !TriggersRecompile(changedKeys, namespace) ==> installed == old(installed)
    {
      if namespace == "local" {
        if "blockedSites" in changedKeys || "strictBlocks" in changedKeys || "focusSessions" in changedKeys {
          LoadBlockingRules(now);
        }
      }
    }

    /** The merge step of `checkStrictTimers`: copies every backup entry
        still in force over `strictBlocks`, re-arms its alarm, and writes
        the map back only when something was copied. */
    method CheckStrictTimers(backup: Option<Dict<StrictBlock>>, now: int) returns (updated: bool)
      requires store.snapshot.Valid()
      requires backup.Some? ==> backup.value.Valid()
      modifies store, this`alarms
      ensures updated <==> exists u :: u in BackupOrEmpty(backup).entries && IsLive(BackupOrEmpty(backup).entries[u], now)
      ensures store.snapshot == old(store.snapshot).(strictBlocks :=
        MergeLive(old(store.snapshot.strictBlocks), BackupOrEmpty(backup).keys, BackupOrEmpty(backup).entries, now))
      ensures store.snapshot.Valid()
      ensures alarms == RearmLive(old(alarms), BackupOrEmpty(backup).keys, BackupOrEmpty(backup).entries, now)
    {
      var strict, rearmed;
      strict, rearmed, updated := MergeBackup(store.snapshot.strictBlocks, BackupOrEmpty(backup), alarms, now);
      alarms := rearmed;
      if updated {
        store.snapshot := store.snapshot.(strictBlocks := strict);
      }
    }
  }
}
