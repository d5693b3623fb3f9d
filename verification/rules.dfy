/** The declarativeNetRequest rules the background worker compiles from the
    stored policy, and what the compiled list guarantees. */
module Rules {
  import opened Wrappers
  import opened Strings
  import opened Policy
  import opened Domains

  /** The `reason` query parameter of the block page a rule redirects to. */
  datatype Reason = NormalReason | StrictReason | FocusReason

  /** `blocked.html?reason=...` with an optional `&site=...` (the site is
      kept unencoded; `encodeURIComponent` is injective where it does
      not throw). */
  datatype Target = BlockPage(reason: Reason, site: Option<string>)

  /** `{ type: "redirect", redirect: { url } }`. */
  datatype Action = Redirect(target: Target)

  /** The `condition` object: a url filter or a list of excluded domains
      (each rule sets exactly one of the two), and the resource types. */
  datatype Condition = Condition(urlFilter: Option<string>, excludedDomains: Option<seq<string>>, resourceTypes: seq<string>)

  datatype Rule = Rule(id: int, priority: int, action: Action, condition: Condition)

  const MainFrameOnly: seq<string> := ["main_frame"]

  /** The rule for a site blocked in normal mode: it catches the main frames
      of the site's domain (scheme and `www.` stripped) and its subdomains,
      and sends them to the normal block page naming the site. */
  function NormalRule(id: int, url: string): (r: Rule)
    ensures r.id == id && r.priority == 1
    ensures r.condition.excludedDomains.None? && r.condition.urlFilter.Some?
    ensures var f := r.condition.urlFilter.value;
      && |f| == |StripWww(StripScheme(url))| + 8
      && StartsWith(f, "*://*.") && EndsWith(f, "/*") && f[6..|f| - 2] == StripWww(StripScheme(url))
    ensures r.condition.resourceTypes == MainFrameOnly
    ensures r.action.target == BlockPage(NormalReason, Some(url))
  {
    Rule(id, 1, Redirect(BlockPage(NormalReason, Some(url))), Condition(Some(CreateUrlFilter(url)), None, MainFrameOnly))
  }

  /** The rule for a strict block in force: it catches exactly what the
      normal rule for the same site would, outranks it, and sends the
      request to the strict block page naming the site. */
  function StrictRule(id: int, url: string): (r: Rule)
    ensures r.id == id && r.condition == NormalRule(id, url).condition
    ensures r.priority > NormalRule(id, url).priority
    ensures r.action.target == BlockPage(StrictReason, Some(url))
  {
    Rule(id, 2, Redirect(BlockPage(StrictReason, Some(url))), Condition(Some(CreateUrlFilter(url)), None, MainFrameOnly))
  }

  /** The rule for the active focus session: every main frame outside the
      whitelisted domains goes to the focus block page, ahead of any site
      rule. */
  function FocusRule(id: int, whitelist: seq<string>): (r: Rule)
    ensures r.id == id && r.condition.urlFilter.None? && r.condition.excludedDomains == Some(whitelist)
    ensures r.condition.resourceTypes == MainFrameOnly
    ensures forall url :: r.priority > StrictRule(id, url).priority
    ensures r.action.target == BlockPage(FocusReason, None)
  {
    Rule(id, 3, Redirect(BlockPage(FocusReason, None)), Condition(None, Some(whitelist), MainFrameOnly))
  }

  /** The normal-block rules, not yet numbered (id 0): one per blocked site
      that has no `strictBlocks` entry, in list order. */
  function NormalRules(sites: seq<BlockedSite>, strict: map<string, StrictBlock>): (rs: seq<Rule>)
    ensures |rs| <= |sites|
    ensures forall r :: r in rs ==> r.id == 0 && r.priority == 1 && r.condition.resourceTypes == MainFrameOnly
  {
    if sites == [] then []
    else
      var url := sites[|sites| - 1].url;
      NormalRules(sites[..|sites| - 1], strict) + (if url in strict then [] else [NormalRule(0, url)])
  }

  /** The strict-block rules, not yet numbered: one per key, in key order,
      whose block is active and not yet expired at `now` (a stored object's
      keys all have a value, so the `url in strict` test always passes). */
  function StrictRules(keys: seq<string>, strict: map<string, StrictBlock>, now: int): (rs: seq<Rule>)
    ensures |rs| <= |keys|
    ensures forall r :: r in rs ==> r.id == 0 && r.priority == 2 && r.condition.resourceTypes == MainFrameOnly
  {
    if keys == [] then []
    else
      var url := keys[|keys| - 1];
      StrictRules(keys[..|keys| - 1], strict, now)
        + (if url in strict && IsLive(strict[url], now) then [StrictRule(0, url)] else [])
  }

  /** At most one focus rule: for the first active session, excluding its whitelist. */
  function FocusRules(sessions: Dict<FocusSession>): (rs: seq<Rule>)
    requires sessions.Valid()
    ensures |rs| <= 1
    ensures forall r :: r in rs ==> r.id == 0 && r.priority == 3 && r.condition.resourceTypes == MainFrameOnly
  {
    var active := ActiveSessions(sessions);
    if |active| > 0 then [FocusRule(0, active[0].whitelist)] else []
  }

  /** Numbers the rules consecutively from `first`, as `ruleId++` does. */
  function WithIds(rs: seq<Rule>, first: int): (numbered: seq<Rule>)
    ensures |numbered| == |rs|
  {
    seq(|rs|, i requires 0 <= i < |rs| => rs[i].(id := first + i))
  }

  /** `numbered` is `rs` with ids 1, 2, 3, ..., stated position by position. */
  predicate Numbered(numbered: seq<Rule>, rs: seq<Rule>) {
    |numbered| == |rs| && forall k :: 0 <= k < |rs| ==> numbered[k] == rs[k].(id := k + 1)
  }

  /** Pushing the next rule with the next id keeps the numbering. */
  lemma NumberedAppend(numbered: seq<Rule>, rs: seq<Rule>, r: Rule)
    requires Numbered(numbered, rs)
    ensures Numbered(numbered + [r.(id := |numbered| + 1)], rs + [r])
  {
    var n' := numbered + [r.(id := |numbered| + 1)];
    forall k | 0 <= k < |rs| + 1
      ensures n'[k] == (rs + [r])[k].(id := k + 1)
    {
      if k < |rs| { assert n'[k] == numbered[k]; assert (rs + [r])[k] == rs[k]; }
    }
  }

  /** `WithIds` from 1 numbers position by position ... */
  lemma WithIdsNumbered(rs: seq<Rule>)
    ensures Numbered(WithIds(rs, 1), rs)
  {
  }

  /** ... and is the only list that does. */
  lemma NumberedIsWithIds(numbered: seq<Rule>, rs: seq<Rule>)
    requires Numbered(numbered, rs)
    ensures numbered == WithIds(rs, 1)
  {
  }

  /** The unnumbered rule list: normal, then strict, then focus. */
  function AllRules(snap: Snapshot, now: int): seq<Rule>
    requires snap.Valid()
  {
    NormalRules(snap.blockedSites, snap.strictBlocks.entries)
      + StrictRules(snap.strictBlocks.keys, snap.strictBlocks.entries, now)
      + FocusRules(snap.focusSessions)
  }

  /** The rule list `loadBlockingRules` installs for a snapshot at time `now`:
      ids run 1, 2, 3, ... and every rule applies to main frames only. */
  function CompileRules(snap: Snapshot, now: int): (rules: seq<Rule>)
    requires snap.Valid()
    ensures |rules| == |AllRules(snap, now)|
    ensures forall i :: 0 <= i < |rules| ==> rules[i] == AllRules(snap, now)[i].(id := i + 1)
    ensures forall i :: 0 <= i < |rules| ==> rules[i].id == i + 1
    ensures forall i :: 0 <= i < |rules| ==> rules[i].condition.resourceTypes == MainFrameOnly
  {
    var all := AllRules(snap, now);
    AllRulesMainFrame(snap, now);
    WithIds(all, 1)
  }

  /** Every unnumbered rule applies to main frames only. */
  lemma AllRulesMainFrame(snap: Snapshot, now: int)
    requires snap.Valid()
    ensures forall i :: 0 <= i < |AllRules(snap, now)| ==> AllRules(snap, now)[i].condition.resourceTypes == MainFrameOnly
  {
    var all := AllRules(snap, now);
    var n := NormalRules(snap.blockedSites, snap.strictBlocks.entries);
    var s := StrictRules(snap.strictBlocks.keys, snap.strictBlocks.entries, now);
    var f := FocusRules(snap.focusSessions);
    forall i | 0 <= i < |all|
      ensures all[i].condition.resourceTypes == MainFrameOnly
    {
      if i < |n| { assert all[i] in n; }
      else if i < |n| + |s| { MiddleIndex(n, s, f, i - |n|); assert all[i] in s; }
      else { assert all[i] == f[i - |n| - |s|]; assert all[i] in f; }
    }
  }

  /** Some blocked site has this url. */
  predicate Listed(sites: seq<BlockedSite>, url: string) {
    exists i :: 0 <= i < |sites| && sites[i].url == url
  }

  /** A url is listed in a non-empty list when it is listed before the last
      site or is the last site's url. */
  lemma ListedStep(sites: seq<BlockedSite>, url: string)
    requires sites != []
    ensures Listed(sites, url) <==> Listed(sites[..|sites| - 1], url) || sites[|sites| - 1].url == url
  {
    var init := sites[..|sites| - 1];
    if Listed(init, url) {
      var i :| 0 <= i < |init| && init[i].url == url;
      assert sites[i].url == url;
    }
    if Listed(sites, url) {
      var i :| 0 <= i < |sites| && sites[i].url == url;
      if i < |init| { assert init[i].url == url; }
    }
  }

  /** The rule one site contributes names that site's url, if any. */
  lemma NormalRuleOf(last: string, strict: map<string, StrictBlock>, url: string)
    ensures NormalRule(0, url) in (if last in strict then [] else [NormalRule(0, last)])
        <==> last == url && url !in strict
  {
    if NormalRule(0, url) == NormalRule(0, last) {
      assert NormalRule(0, url).action.target.site == Some(url);
    }
  }

  /** A site gets a normal-block rule exactly when it is in the blocked list
      and has no `strictBlocks` entry (active or not). */
  lemma {:induction false} NormalRulesMembership(sites: seq<BlockedSite>, strict: map<string, StrictBlock>, url: string)
    ensures NormalRule(0, url) in NormalRules(sites, strict) <==> Listed(sites, url) && url !in strict
  {
    if sites != [] {
      var init := sites[..|sites| - 1];
      var last := sites[|sites| - 1].url;
      NormalRulesMembership(init, strict, url);
      ListedStep(sites, url);
      NormalRuleOf(last, strict, url);
    }
  }

  /** A key gets a strict-block rule exactly when its block is active and unexpired. */
  lemma {:induction false} StrictRulesMembership(keys: seq<string>, strict: map<string, StrictBlock>, now: int, url: string)
    requires forall k :: k in keys ==> k in strict
    ensures StrictRule(0, url) in StrictRules(keys, strict, now) <==> url in keys && IsLive(strict[url], now)
  {
    if keys != [] {
      var init := keys[..|keys| - 1];
      assert keys == init + [keys[|keys| - 1]];
      StrictRulesMembership(init, strict, now, url);
    }
  }

  /** The same, read on a stored `strictBlocks` object. */
  lemma StrictRulesInForce(strict: Dict<StrictBlock>, now: int, url: string)
    requires strict.Valid()
    ensures StrictRule(0, url) in StrictRules(strict.keys, strict.entries, now) <==> StrictInForce(strict, url, now)
  {
    StrictRulesMembership(strict.keys, strict.entries, now, url);
  }

  /** Where an index of the unnumbered list falls: the normal part, the strict
      part or the focus part; its priority says which, and its id is 0. */
  lemma Classify(snap: Snapshot, now: int, i: int)
    requires snap.Valid() && 0 <= i < |AllRules(snap, now)|
    ensures var n := |NormalRules(snap.blockedSites, snap.strictBlocks.entries)|;
      var s := |StrictRules(snap.strictBlocks.keys, snap.strictBlocks.entries, now)|;
      && AllRules(snap, now)[i].id == 0
      && AllRules(snap, now)[i].priority == (if i < n then 1 else if i < n + s then 2 else 3)
  {
    var all := AllRules(snap, now);
    var n := NormalRules(snap.blockedSites, snap.strictBlocks.entries);
    var s := StrictRules(snap.strictBlocks.keys, snap.strictBlocks.entries, now);
    var f := FocusRules(snap.focusSessions);
    if i < |n| { assert all[i] == n[i]; assert all[i] in n; }
    else if i < |n| + |s| { assert all[i] == s[i - |n|]; assert all[i] in s; }
    else { assert all[i] == f[i - |n| - |s|]; assert all[i] in f; }
  }

  /** The installed list holds a normal-block rule for `url` (at whatever
      position) exactly when the site is blocked and has no strict entry. */
  lemma CompiledNormalRule(snap: Snapshot, now: int, url: string)
    requires snap.Valid()
    ensures var rules := CompileRules(snap, now);
      (exists i :: 0 <= i < |rules| && rules[i] == NormalRule(i + 1, url))
        <==> (exists j :: 0 <= j < |snap.blockedSites| && snap.blockedSites[j].url == url) && url !in snap.strictBlocks.entries
  {
    var rules := CompileRules(snap, now);
    NormalRulesMembership(snap.blockedSites, snap.strictBlocks.entries, url);
    if exists i :: 0 <= i < |rules| && rules[i] == NormalRule(i + 1, url) {
      var i :| 0 <= i < |rules| && rules[i] == NormalRule(i + 1, url);
      CompiledNormalRuleOnlyIf(snap, now, url, i);
    }
    if NormalRule(0, url) in NormalRules(snap.blockedSites, snap.strictBlocks.entries) {
      var i := CompiledNormalRuleIf(snap, now, url);
    }
  }

  /** An installed rule is the unnumbered rule at its position with its id set. */
  lemma Unnumbered(snap: Snapshot, now: int, i: int)
    requires snap.Valid() && 0 <= i < |CompileRules(snap, now)|
    ensures AllRules(snap, now)[i] == CompileRules(snap, now)[i].(id := 0)
  {
    var r := AllRules(snap, now)[i];
    Classify(snap, now, i);
    assert CompileRules(snap, now)[i] == r.(id := i + 1);
    assert r == r.(id := i + 1).(id := 0);
  }

  lemma CompiledNormalRuleOnlyIf(snap: Snapshot, now: int, url: string, i: int)
    requires snap.Valid()
    requires 0 <= i < |CompileRules(snap, now)| && CompileRules(snap, now)[i] == NormalRule(i + 1, url)
    ensures NormalRule(0, url) in NormalRules(snap.blockedSites, snap.strictBlocks.entries)
  {
    var all := AllRules(snap, now);
    var n := NormalRules(snap.blockedSites, snap.strictBlocks.entries);
    Classify(snap, now, i);
    Unnumbered(snap, now, i);
    assert all[i] == NormalRule(0, url);
    assert i < |n|;
    assert all[i] == n[i];
  }

  lemma CompiledNormalRuleIf(snap: Snapshot, now: int, url: string) returns (i: int)
    requires snap.Valid() && NormalRule(0, url) in NormalRules(snap.blockedSites, snap.strictBlocks.entries)
    ensures 0 <= i < |CompileRules(snap, now)| && CompileRules(snap, now)[i] == NormalRule(i + 1, url)
  {
    var all := AllRules(snap, now);
    var n := NormalRules(snap.blockedSites, snap.strictBlocks.entries);
    i :| 0 <= i < |n| && n[i] == NormalRule(0, url);
    assert all[i] == n[i];
  }

  /** The installed list holds a strict-block rule for `url` exactly when the
      stored strict block for `url` is active and unexpired. */
  lemma CompiledStrictRule(snap: Snapshot, now: int, url: string)
    requires snap.Valid()
    ensures var rules := CompileRules(snap, now);
      (exists i :: 0 <= i < |rules| && rules[i] == StrictRule(i + 1, url)) <==> StrictInForce(snap.strictBlocks, url, now)
  {
    var rules := CompileRules(snap, now);
    if exists i :: 0 <= i < |rules| && rules[i] == StrictRule(i + 1, url) {
      var i :| 0 <= i < |rules| && rules[i] == StrictRule(i + 1, url);
      CompiledStrictRuleOnlyIf(snap, now, url, i);
    }
    if StrictInForce(snap.strictBlocks, url, now) {
      var i := CompiledStrictRuleIf(snap, now, url);
    }
  }

  lemma CompiledStrictRuleOnlyIf(snap: Snapshot, now: int, url: string, i: int)
    requires snap.Valid()
    requires 0 <= i < |CompileRules(snap, now)| && CompileRules(snap, now)[i] == StrictRule(i + 1, url)
    ensures StrictInForce(snap.strictBlocks, url, now)
  {
    var all := AllRules(snap, now);
    var n := NormalRules(snap.blockedSites, snap.strictBlocks.entries);
    var s := StrictRules(snap.strictBlocks.keys, snap.strictBlocks.entries, now);
    Classify(snap, now, i);
    Unnumbered(snap, now, i);
    assert all[i] == StrictRule(0, url);
    assert |n| <= i < |n| + |s|;
    MiddleIndex(n, s, FocusRules(snap.focusSessions), i - |n|);
    assert s[i - |n|] in s;
    StrictRulesInForce(snap.strictBlocks, now, url);
  }

  lemma CompiledStrictRuleIf(snap: Snapshot, now: int, url: string) returns (i: int)
    requires snap.Valid() && StrictInForce(snap.strictBlocks, url, now)
    ensures 0 <= i < |CompileRules(snap, now)| && CompileRules(snap, now)[i] == StrictRule(i + 1, url)
  {
    i := StrictRuleIndex(snap, now, url);
    assert CompileRules(snap, now)[i] == AllRules(snap, now)[i].(id := i + 1);
  }

  lemma StrictRuleIndex(snap: Snapshot, now: int, url: string) returns (i: int)
    requires snap.Valid() && StrictInForce(snap.strictBlocks, url, now)
    ensures 0 <= i < |AllRules(snap, now)| && AllRules(snap, now)[i] == StrictRule(0, url)
  {
    var n := NormalRules(snap.blockedSites, snap.strictBlocks.entries);
    var s := StrictRules(snap.strictBlocks.keys, snap.strictBlocks.entries, now);
    StrictRulesInForce(snap.strictBlocks, now, url);
    i := IndexInMiddle(n, s, FocusRules(snap.focusSessions), StrictRule(0, url));
  }

  /** A member of the middle part has a position in the concatenation. */
  lemma IndexInMiddle<T>(a: seq<T>, b: seq<T>, c: seq<T>, x: T) returns (i: int)
    requires x in b
    ensures 0 <= i < |a + b + c| && (a + b + c)[i] == x
  {
    var j :| 0 <= j < |b| && b[j] == x;
    MiddleIndex(a, b, c, j);
    i := |a| + j;
  }

  /** Indexing the middle part of a three-part concatenation. */
  lemma MiddleIndex<T>(a: seq<T>, b: seq<T>, c: seq<T>, j: int)
    requires 0 <= j < |b|
    ensures |a| + j < |a + b + c| && (a + b + c)[|a| + j] == b[j]
  {
  }

  /** A strict entry that is no longer in force suppresses every rule for its
      url: the normal rule (the entry still exists) and the strict rule. */
  lemma ExpiredStrictUnblocks(snap: Snapshot, now: int, url: string)
    requires snap.Valid()
    requires url in snap.strictBlocks.entries && !IsLive(snap.strictBlocks.entries[url], now)
    ensures var rules := CompileRules(snap, now);
      forall i :: 0 <= i < |rules| ==> rules[i] != NormalRule(i + 1, url) && rules[i] != StrictRule(i + 1, url)
  {
    CompiledNormalRule(snap, now, url);
    CompiledStrictRule(snap, now, url);
  }

  /** There is a focus rule exactly when some session is active; it is the
      only one, it comes last, and it excludes the first active session's
      whitelist. */
  lemma CompiledFocusRule(snap: Snapshot, now: int)
    requires snap.Valid()
    ensures var rules := CompileRules(snap, now);
      var active := ActiveSessions(snap.focusSessions);
      && ((exists i :: 0 <= i < |rules| && rules[i].priority == 3) <==> |active| > 0)
      && (forall i :: 0 <= i < |rules| && rules[i].priority == 3 ==>
            i == |rules| - 1 && rules[i] == FocusRule(i + 1, active[0].whitelist))
  {
    var rules := CompileRules(snap, now);
    var active := ActiveSessions(snap.focusSessions);
    forall i | 0 <= i < |rules| && rules[i].priority == 3
      ensures i == |rules| - 1 && rules[i] == FocusRule(i + 1, active[0].whitelist)
    {
      FocusRuleAt(snap, now, i);
    }
    if |active| > 0 {
      FocusRuleLast(snap, now);
    }
  }

  /** A priority-3 rule is the last one and carries the first active
      session's whitelist. */
  lemma FocusRuleAt(snap: Snapshot, now: int, i: int)
    requires snap.Valid() && 0 <= i < |CompileRules(snap, now)| && CompileRules(snap, now)[i].priority == 3
    ensures var active := ActiveSessions(snap.focusSessions);
      |active| > 0 && i == |CompileRules(snap, now)| - 1
      && CompileRules(snap, now)[i] == FocusRule(i + 1, active[0].whitelist)
  {
    var all := AllRules(snap, now);
    var ns := NormalRules(snap.blockedSites, snap.strictBlocks.entries)
      + StrictRules(snap.strictBlocks.keys, snap.strictBlocks.entries, now);
    var f := FocusRules(snap.focusSessions);
    Classify(snap, now, i);
    assert all == ns + f;
    assert |ns| <= i;
    assert all[i] == f[i - |ns|];
  }

  /** With a session active, the last rule is the focus rule. */
  lemma FocusRuleLast(snap: Snapshot, now: int)
    requires snap.Valid() && |ActiveSessions(snap.focusSessions)| > 0
    ensures var rules := CompileRules(snap, now);
      |rules| > 0 && rules[|rules| - 1].priority == 3
  {
    var all := AllRules(snap, now);
    var ns := NormalRules(snap.blockedSites, snap.strictBlocks.entries)
      + StrictRules(snap.strictBlocks.keys, snap.strictBlocks.entries, now);
    var f := FocusRules(snap.focusSessions);
    assert all == ns + f;
    assert |f| == 1;
    assert all[|all| - 1] == f[0];
  }

  /** Priorities never decrease along the installed list: normal (1), then
      strict (2), then focus (3). */
  lemma CompiledPrioritiesAscend(snap: Snapshot, now: int)
    requires snap.Valid()
    ensures var rules := CompileRules(snap, now);
      forall i, j :: 0 <= i <= j < |rules| ==> rules[i].priority <= rules[j].priority
  {
    var rules := CompileRules(snap, now);
    var all := AllRules(snap, now);
    var n := NormalRules(snap.blockedSites, snap.strictBlocks.entries);
    var s := StrictRules(snap.strictBlocks.keys, snap.strictBlocks.entries, now);
    var f := FocusRules(snap.focusSessions);
    forall i | 0 <= i < |rules|
      ensures rules[i].priority == if i < |n| then 1 else if i < |n| + |s| then 2 else 3
    {
      Classify(snap, now, i);
    }
  }
}
