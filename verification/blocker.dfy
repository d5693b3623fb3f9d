/** The content script's verdict for the page it runs in, and the
    remaining-time figures its block pages show. */
module Blocker {
  import opened Wrappers
  import opened Strings
  import opened Domains
  import opened Policy
  import Rules
  import Background

  /** What `checkCurrentPage` does: leave the page alone, or show the block
      page for a focus session, a strict block or a normal block. */
  datatype Verdict =
    | Allowed
    | FocusBlocked(session: FocusSession)
    | StrictBlocked(url: string, block: StrictBlock)
    | NormalBlocked(url: string)

  /** The page as the script reads it: `location.hostname`, and the hostname
      of `new URL(location.href)`, which is `None` when the constructor throws. */
  datatype Page = Page(hostname: string, hrefHost: Option<string>)

  /** `isUrlInWhitelist` of the content script: a url that does not parse is
      not whitelisted, so a focus session fails closed. */
  function IsUrlInWhitelist(hrefHost: Option<string>, whitelist: seq<string>): (r: bool)
    ensures hrefHost.None? ==> !r
    ensures hrefHost.Some? ==>
      (r <==> exists i :: 0 <= i < |whitelist| && SuffixMatch(StripWww(hrefHost.value), StripWww(whitelist[i])))
  {
    match hrefHost
    case None => false
    case Some(host) => AnyAllowed(StripWww(host), whitelist)
  }

  /** Both ends of the whitelist test lose one leading `www.`: the four
      spellings of a host and an entry give the same answer. */
  lemma WhitelistIgnoresWww(host: string, entry: string)
    requires !StartsWith(host, "www.") && !StartsWith(entry, "www.")
    ensures IsUrlInWhitelist(Some("www." + host), ["www." + entry]) == SuffixMatch(host, entry)
    ensures IsUrlInWhitelist(Some("www." + host), [entry]) == SuffixMatch(host, entry)
    ensures IsUrlInWhitelist(Some(host), ["www." + entry]) == SuffixMatch(host, entry)
    ensures IsUrlInWhitelist(Some(host), [entry]) == SuffixMatch(host, entry)
  {
    assert StripWww("www." + host) == host by {
      assert ("www." + host)[..4] == "www.";
      assert ("www." + host)[4..] == host;
    }
    assert StripWww("www." + entry) == entry by {
      assert ("www." + entry)[..4] == "www.";
      assert ("www." + entry)[4..] == entry;
    }
    assert ["www." + entry][0] == "www." + entry;
    assert [entry][0] == entry;
  }

  /** The content script and the background worker agree on every url that
      parses; where the background worker throws, the content script says no. */
  lemma WhitelistChecksAgree(hrefHost: Option<string>, whitelist: seq<string>)
    ensures IsUrlInWhitelist(hrefHost, whitelist) <==> Background.IsUrlInWhitelist(hrefHost, whitelist) == Some(true)
  {
  }

  /** No site among the first `n` covers `domain`. */
  predicate NoneBlockedBefore(domain: string, sites: seq<BlockedSite>, n: nat)
    requires n <= |sites|
  {
    forall j :: 0 <= j < n ==> !IsDomainBlocked(domain, sites[j].url)
  }

  /** `blockedSites.find(site => isDomainBlocked(domain, site.url))`: the
      first blocked site whose domain covers `domain`. */
  function FindBlockedSite(domain: string, sites: seq<BlockedSite>): (r: Option<BlockedSite>)
    ensures r.None? <==> NoneBlockedBefore(domain, sites, |sites|)
    ensures r.Some? ==>
      exists i :: 0 <= i < |sites| && sites[i] == r.value && IsDomainBlocked(domain, r.value.url)
        && NoneBlockedBefore(domain, sites, i)
  {
    if sites == [] then None
    else if IsDomainBlocked(domain, sites[0].url) then
      assert sites[0] == sites[0] && IsDomainBlocked(domain, sites[0].url) && NoneBlockedBefore(domain, sites, 0);
      Some(sites[0])
    else
      var r := FindBlockedSite(domain, sites[1..]);
      FindBlockedSiteStep(domain, sites, r);
      r
  }

  /** A search past an uncovering head is the search of the tail. */
  lemma FindBlockedSiteStep(domain: string, sites: seq<BlockedSite>, r: Option<BlockedSite>)
    requires sites != [] && !IsDomainBlocked(domain, sites[0].url)
    requires r.None? <==> NoneBlockedBefore(domain, sites[1..], |sites| - 1)
    requires r.Some? ==>
      exists i :: 0 <= i < |sites| - 1 && sites[1..][i] == r.value && IsDomainBlocked(domain, r.value.url)
        && NoneBlockedBefore(domain, sites[1..], i)
    ensures r.None? <==> NoneBlockedBefore(domain, sites, |sites|)
    ensures r.Some? ==>
      exists i :: 0 <= i < |sites| && sites[i] == r.value && IsDomainBlocked(domain, r.value.url)
        && NoneBlockedBefore(domain, sites, i)
  {
    forall k | 0 <= k < |sites| - 1
      ensures NoneBlockedBefore(domain, sites[1..], k) ==> NoneBlockedBefore(domain, sites, k + 1)
    {
      if NoneBlockedBefore(domain, sites[1..], k) {
        forall j | 0 <= j < k + 1 ensures !IsDomainBlocked(domain, sites[j].url) {
          if j > 0 { assert sites[j] == sites[1..][j - 1]; }
        }
      }
    }
    if NoneBlockedBefore(domain, sites, |sites|) {
      assert forall j :: 0 <= j < |sites| - 1 ==> sites[1..][j] == sites[j + 1];
    } else if r.None? {
      forall j | 0 <= j < |sites| ensures !IsDomainBlocked(domain, sites[j].url) {
        if j > 0 { assert sites[j] == sites[1..][j - 1]; }
      }
    }
    if r.Some? {
      var i :| 0 <= i < |sites| - 1 && sites[1..][i] == r.value && IsDomainBlocked(domain, r.value.url)
        && NoneBlockedBefore(domain, sites[1..], i);
      assert sites[i + 1] == r.value;
    }
  }

  /** Whether an active focus session blocks the page: the first active
      session decides, through its whitelist; a page whose url cannot be
      parsed is blocked whenever a session is active. */
  predicate FocusBlocks(page: Page, sessions: Dict<FocusSession>)
    requires sessions.Valid()
    ensures FocusBlocks(page, sessions) ==> exists k :: k in sessions.entries && sessions.entries[k].active
    ensures page.hrefHost.None? ==> (FocusBlocks(page, sessions) <==> |ActiveSessions(sessions)| > 0)
  {
    var active := ActiveSessions(sessions);
    if |active| > 0 then
      ActiveSessionsMembership(sessions, active[0]);
      !IsUrlInWhitelist(page.hrefHost, active[0].whitelist)
    else
      false
  }

  /** The verdict of `checkCurrentPage`. The focus session is checked first
      and, when it blocks, the blocked list is not consulted; otherwise the
      first blocked site covering the page's domain (`www.` stripped)
      decides, strict when its strict block is in force and normal otherwise. */
  function CheckCurrentPage(page: Page, snap: Snapshot, now: int): (v: Verdict)
    requires snap.Valid()
    ensures v.FocusBlocked? <==> FocusBlocks(page, snap.focusSessions)
    ensures v.FocusBlocked? ==> v.session == ActiveSessions(snap.focusSessions)[0]
    ensures !FocusBlocks(page, snap.focusSessions) ==>
      (v.Allowed? <==> NoneBlockedBefore(StripWww(page.hostname), snap.blockedSites, |snap.blockedSites|))
    ensures v.StrictBlocked? ==> StrictInForce(snap.strictBlocks, v.url, now) && v.block == snap.strictBlocks.entries[v.url]
    ensures v.NormalBlocked? ==> !StrictInForce(snap.strictBlocks, v.url, now)
    ensures v.StrictBlocked? || v.NormalBlocked? ==>
      exists i :: 0 <= i < |snap.blockedSites| && snap.blockedSites[i].url == v.url
        && IsDomainBlocked(StripWww(page.hostname), v.url)
        && NoneBlockedBefore(StripWww(page.hostname), snap.blockedSites, i)
  {
    var active := ActiveSessions(snap.focusSessions);
    if |active| > 0 && !IsUrlInWhitelist(page.hrefHost, active[0].whitelist) then
      FocusBlocked(active[0])
    else
      match FindBlockedSite(StripWww(page.hostname), snap.blockedSites)
      case None => Allowed
      case Some(site) =>
        if StrictInForce(snap.strictBlocks, site.url, now) then
          StrictBlocked(site.url, snap.strictBlocks.entries[site.url])
        else
          NormalBlocked(site.url)
  }

  /** The blocked list cannot change a focus verdict. */
  lemma FocusVerdictIgnoresBlockedList(page: Page, snap: Snapshot, sites: seq<BlockedSite>, now: int)
    requires snap.Valid() && FocusBlocks(page, snap.focusSessions)
    ensures CheckCurrentPage(page, snap.(blockedSites := sites), now) == CheckCurrentPage(page, snap, now)
  {
  }

  /** A strict entry that has run out leaves the site in the blocked list,
      and the content script then shows the normal block page for it
      whenever it is the first blocked site covering the page, while the
      rule compiler emits no rule for that url at all. */
  lemma ExpiredStrictStillShowsNormalPage(page: Page, snap: Snapshot, now: int, k: nat)
    requires snap.Valid() && !FocusBlocks(page, snap.focusSessions)
    requires k < |snap.blockedSites|
    requires NoneBlockedBefore(StripWww(page.hostname), snap.blockedSites, k)
    requires IsDomainBlocked(StripWww(page.hostname), snap.blockedSites[k].url)
    requires snap.blockedSites[k].url in snap.strictBlocks.entries
    requires !IsLive(snap.strictBlocks.entries[snap.blockedSites[k].url], now)
    ensures CheckCurrentPage(page, snap, now) == NormalBlocked(snap.blockedSites[k].url)
    ensures var url := snap.blockedSites[k].url;
      var rules := Rules.CompileRules(snap, now);
      forall i :: 0 <= i < |rules| ==> rules[i] != Rules.NormalRule(i + 1, url) && rules[i] != Rules.StrictRule(i + 1, url)
  {
    var url := snap.blockedSites[k].url;
    var domain := StripWww(page.hostname);
    Rules.ExpiredStrictUnblocks(snap, now, url);
    var v := CheckCurrentPage(page, snap, now);
    assert !v.Allowed?;
    if v.StrictBlocked? || v.NormalBlocked? {
      var i :| 0 <= i < |snap.blockedSites| && snap.blockedSites[i].url == v.url
        && IsDomainBlocked(domain, v.url) && NoneBlockedBefore(domain, snap.blockedSites, i);
      // The first covering site is unique: nothing before k covers the
      // domain, and nothing before i does either.
      assert IsDomainBlocked(domain, snap.blockedSites[i].url);
      assert i == k;
    }
  }

  /** `Math.ceil(Math.max(0, expiry - now) / unit)`: the whole units left,
      rounded up; zero exactly when the expiry has passed. */
  function RemainingUnits(expiry: int, now: int, unit: int): (r: nat)
    requires unit > 0
    ensures r == 0 <==> expiry <= now
    ensures expiry > now ==> (r - 1) * unit < expiry - now <= r * unit
  {
    var remaining := if expiry > now then expiry - now else 0;
    (remaining + unit - 1) / unit
  }

  /** The hours a strict block page shows (units of 1000 * 60 * 60 ms). */
  function RemainingHours(expiry: int, now: int): (hours: nat)
    ensures hours == 0 <==> expiry <= now
    ensures expiry > now ==> (hours - 1) * 3600000 < expiry - now <= hours * 3600000
  {
    RemainingUnits(expiry, now, 3600000)
  }

  /** The minutes a focus block page shows (units of 1000 * 60 ms). */
  function RemainingMinutes(expiry: int, now: int): (minutes: nat)
    ensures minutes == 0 <==> expiry <= now
    ensures expiry > now ==> (minutes - 1) * 60000 < expiry - now <= minutes * 60000
  {
    RemainingUnits(expiry, now, 60000)
  }
}
