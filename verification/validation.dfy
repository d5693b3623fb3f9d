/** The input checks and conversions the options page and the popup share:
    the new-entry checks, `parseInt` results, duration units, list removal
    and the comma-separated whitelist of the popup. */
module Validation {
  import opened Wrappers
  import opened Strings
  import opened Domains
  import opened Policy

  /** `blockedSites.some((site) => site.url === url)`. */
  predicate IsListed(sites: seq<BlockedSite>, url: string) {
    exists i :: 0 <= i < |sites| && sites[i].url == url
  }

  /** The first steps of both add-site handlers: the typed text is trimmed,
      refused when nothing is left, cleaned, and refused when the cleaned
      url is already in the blocked list. */
  function NewSite(input: string, sites: seq<BlockedSite>): (r: Result<string, Rejection>)
    ensures r == Failure(EmptyUrl) <==> Trim(input) == []
    ensures r == Failure(AlreadyBlocked) <==> Trim(input) != [] && IsListed(sites, CleanUrl(Trim(input)))
    ensures r.Failure? ==> r.error == EmptyUrl || r.error == AlreadyBlocked
    ensures r.Success? ==> r.value == CleanUrl(Trim(input)) && !IsListed(sites, r.value)
  {
    var url := Trim(input);
    if url == [] then Failure(EmptyUrl)
    else
      var clean := CleanUrl(url);
      if IsListed(sites, clean) then Failure(AlreadyBlocked) else Success(clean)
  }

  /** The first steps of `handleAddWhitelist`: trimmed, refused when empty,
      cleaned, refused when `whitelist.includes` the cleaned url. */
  function NewWhitelistEntry(input: string, whitelist: seq<string>): (r: Result<string, Rejection>)
    ensures r == Failure(EmptyUrl) <==> Trim(input) == []
    ensures r == Failure(AlreadyWhitelisted) <==> Trim(input) != [] && CleanUrl(Trim(input)) in whitelist
    ensures r.Failure? ==> r.error == EmptyUrl || r.error == AlreadyWhitelisted
    ensures r.Success? ==> r.value == CleanUrl(Trim(input)) && r.value !in whitelist
  {
    var url := Trim(input);
    if url == [] then Failure(EmptyUrl)
    else
      var clean := CleanUrl(url);
      if clean in whitelist then Failure(AlreadyWhitelisted) else Success(clean)
  }

  /** `!amount || amount <= 0` refuses the amount: `parseInt` gave NaN
      (`None`), zero or a negative number. */
  predicate ValidAmount(parsed: Option<int>)
    ensures ValidAmount(parsed) <==> !(parsed.None? || parsed.value == 0 || parsed.value <= 0)
  {
    parsed.Some? && parsed.value > 0
  }

  /** The milliseconds in one unit of the duration selector; an unknown
      unit counts as hours. */
  function UnitMs(unit: string): (ms: nat)
    ensures ms >= 60000
  {
    if unit == "minutes" then 60 * 1000
    else if unit == "days" then 24 * 60 * 60 * 1000
    else if unit == "weeks" then 7 * 24 * 60 * 60 * 1000
    else 60 * 60 * 1000
  }

  /** The strict duration of the options page: the amount is taken as hours
      and then multiplied by 24 for days and by 24 * 7 for weeks. The page
      has no minutes branch, so minutes also count as hours. */
  method StrictDurationMs(duration: int, unit: string) returns (durationMs: int)
    ensures unit != "minutes" ==> durationMs == duration * UnitMs(unit)
    ensures unit == "minutes" ==> durationMs == duration * UnitMs("hours")
    ensures duration > 0 ==> durationMs >= duration * 3600000 > 0
  {
    durationMs := duration * 60 * 60 * 1000;
    if unit == "days" {
      durationMs := durationMs * 24;
    }
    if unit == "weeks" {
      durationMs := durationMs * (24 * 7);
    }
  }

  /** The `switch (unit)` of the popup's quick block. */
  method QuickDurationMs(amount: int, unit: string) returns (duration: int)
    ensures duration == amount * UnitMs(unit)
    ensures amount > 0 ==> duration >= amount * 60000 > 0
  {
    if unit == "minutes" {
      duration := amount * 60 * 1000;
    } else if unit == "hours" {
      duration := amount * 60 * 60 * 1000;
    } else if unit == "days" {
      duration := amount * 24 * 60 * 60 * 1000;
    } else if unit == "weeks" {
      duration := amount * 7 * 24 * 60 * 60 * 1000;
    } else {
      duration := amount * 60 * 60 * 1000;
    }
  }

  /** No url appears twice in the blocked list. */
  predicate DistinctUrls(sites: seq<BlockedSite>) {
    forall i, j :: 0 <= i < j < |sites| ==> sites[i].url != sites[j].url
  }

  /** An accepted new site keeps the blocked list free of duplicates,
      whatever its mode. */
  lemma AddKeepsDistinct(sites: seq<BlockedSite>, input: string, mode: Mode)
    requires DistinctUrls(sites)
    requires NewSite(input, sites).Success?
    ensures DistinctUrls(sites + [BlockedSite(NewSite(input, sites).value, mode)])
  {
    var url := NewSite(input, sites).value;
    var after := sites + [BlockedSite(url, mode)];
    forall i, j | 0 <= i < j < |after|
      ensures after[i].url != after[j].url
    {
      if j == |sites| {
        assert after[i] == sites[i];
      }
    }
  }

  /** The test `(site) => site.url !== url` of the remove handler. */
  function OtherSite(url: string): BlockedSite -> bool {
    (site: BlockedSite) => site.url != url
  }

  /** `blockedSites.filter((site) => site.url !== url)`. */
  function RemoveSite(sites: seq<BlockedSite>, url: string): (r: seq<BlockedSite>)
    ensures |r| <= |sites|
    ensures forall s :: s in r <==> s in sites && s.url != url
  {
    Filter(sites, OtherSite(url))
  }

  /** Removing a site keeps every other entry, in its order: removal
      commutes with concatenation. */
  lemma RemoveSiteConcat(a: seq<BlockedSite>, b: seq<BlockedSite>, url: string)
    ensures RemoveSite(a + b, url) == RemoveSite(a, url) + RemoveSite(b, url)
  {
    FilterConcat(a, b, OtherSite(url));
  }

  /** Removing a site that was just appended to a list not holding it gives
      the list back. */
  lemma RemoveSiteUndoesAdd(sites: seq<BlockedSite>, site: BlockedSite)
    requires !IsListed(sites, site.url)
    ensures RemoveSite(sites + [site], site.url) == sites
  {
    FilterConcat(sites, [site], OtherSite(site.url));
    FilterKeepsAll(sites, OtherSite(site.url));
    assert Filter([site], OtherSite(site.url)) == [];
  }

  /** A site whose url is not in a duplicate-free list can go in front of it. */
  lemma ConsKeepsDistinct(site: BlockedSite, sites: seq<BlockedSite>)
    requires DistinctUrls(sites)
    requires forall k :: 0 <= k < |sites| ==> sites[k].url != site.url
    ensures DistinctUrls([site] + sites)
  {
    var after := [site] + sites;
    forall i, j | 0 <= i < j < |after|
      ensures after[i].url != after[j].url
    {
      assert after[j] == sites[j - 1];
      if i > 0 {
        assert after[i] == sites[i - 1];
      }
    }
  }

  /** Removal keeps the blocked list free of duplicates. */
  lemma {:induction false} RemoveSiteKeepsDistinct(sites: seq<BlockedSite>, url: string)
    requires DistinctUrls(sites)
    ensures DistinctUrls(RemoveSite(sites, url))
  {
    if sites != [] {
      var tail := sites[1..];
      var rest := RemoveSite(tail, url);
      assert DistinctUrls(tail) by {
        assert forall i :: 0 <= i < |tail| ==> tail[i] == sites[i + 1];
      }
      RemoveSiteKeepsDistinct(tail, url);
      if sites[0].url != url {
        assert RemoveSite(sites, url) == [sites[0]] + rest;
        forall k | 0 <= k < |rest|
          ensures rest[k].url != sites[0].url
        {
          assert rest[k] in rest;
          var m :| 0 <= m < |tail| && tail[m] == rest[k];
          assert sites[m + 1] == rest[k];
        }
        ConsKeepsDistinct(sites[0], rest);
      } else {
        assert RemoveSite(sites, url) == rest;
      }
    }
  }

  /** `whitelist.filter((site) => site !== url)`. */
  function RemoveEntry(whitelist: seq<string>, url: string): (r: seq<string>)
    ensures |r| <= |whitelist|
    ensures forall s :: s in r <==> s in whitelist && s != url
  {
    Filter(whitelist, (site: string) => site != url)
  }

  /** Removing a whitelist entry that was just appended gives the list back. */
  lemma RemoveEntryUndoesAdd(whitelist: seq<string>, url: string)
    requires url !in whitelist
    ensures RemoveEntry(whitelist + [url], url) == whitelist
  {
    var keep := (s: string) => s != url;
    FilterConcat(whitelist, [url], keep);
    FilterKeepsAll(whitelist, keep);
    assert Filter([url], keep) == [];
  }

  predicate NonEmpty(s: string) {
    s != []
  }

  /** `.map((site) => site.trim())`. */
  function TrimAll(pieces: seq<string>): (r: seq<string>)
    ensures |r| == |pieces|
    ensures forall i :: 0 <= i < |pieces| ==> r[i] == Trim(pieces[i])
  {
    seq(|pieces|, i requires 0 <= i < |pieces| => Trim(pieces[i]))
  }

  /** The trimmed pieces are exactly the trims of the pieces. */
  lemma TrimAllMembership(pieces: seq<string>)
    ensures forall s :: s in TrimAll(pieces) <==> exists p :: p in pieces && Trim(p) == s
  {
    var trimmed := TrimAll(pieces);
    forall s | s in trimmed
      ensures exists p :: p in pieces && Trim(p) == s
    {
      var i :| 0 <= i < |trimmed| && trimmed[i] == s;
      assert pieces[i] in pieces;
    }
    forall s | exists p :: p in pieces && Trim(p) == s
      ensures s in trimmed
    {
      var p :| p in pieces && Trim(p) == s;
      var i :| 0 <= i < |pieces| && pieces[i] == p;
      assert trimmed[i] == s;
    }
  }

  /** A whitelist entry as the popup keeps it: non-empty, already trimmed,
      and free of the separator. */
  predicate IsEntry(s: string, sep: char) {
    s != [] && sep !in s && Trim(s) == s
  }

  /** Every element of the list is an entry. */
  predicate AllEntries(entries: seq<string>, sep: char) {
    forall i :: 0 <= i < |entries| ==> IsEntry(entries[i], sep)
  }

  /** Trimmed pieces without the separator stay trimmed and without it. */
  lemma TrimAllClean(pieces: seq<string>, sep: char)
    requires forall i :: 0 <= i < |pieces| ==> sep !in pieces[i]
    ensures forall s :: s in TrimAll(pieces) && s != [] ==> IsEntry(s, sep)
  {
    var trimmed := TrimAll(pieces);
    forall s | s in trimmed && s != []
      ensures IsEntry(s, sep)
    {
      var i :| 0 <= i < |trimmed| && trimmed[i] == s;
      TrimIdempotent(pieces[i]);
      if sep in s {
        TrimKeepsChars(pieces[i], sep);
      }
    }
  }

  /** The non-empty trimmed pieces are the non-empty trims of the pieces. */
  lemma KeptPieces(pieces: seq<string>)
    ensures forall s :: s in Filter(TrimAll(pieces), NonEmpty) <==> s != [] && exists p :: p in pieces && Trim(p) == s
  {
    TrimAllMembership(pieces);
    forall s
      ensures s in Filter(TrimAll(pieces), NonEmpty) <==> s != [] && s in TrimAll(pieces)
    {
      assert NonEmpty(s) <==> s != [];
    }
  }

  /** The kept pieces are entries. */
  lemma KeptPiecesClean(pieces: seq<string>, sep: char)
    requires forall i :: 0 <= i < |pieces| ==> sep !in pieces[i]
    ensures AllEntries(Filter(TrimAll(pieces), NonEmpty), sep)
  {
    var kept := Filter(TrimAll(pieces), NonEmpty);
    TrimAllClean(pieces, sep);
    forall i | 0 <= i < |kept|
      ensures IsEntry(kept[i], sep)
    {
      assert kept[i] in kept;
      assert NonEmpty(kept[i]);
    }
  }

  /** The popup's whitelist field: split on commas, each piece trimmed,
      empty pieces dropped. Every entry is non-empty, already trimmed and
      free of commas, and the entries are exactly the non-empty trimmed pieces. */
  function ParseWhitelist(text: string): (whitelist: seq<string>)
    ensures AllEntries(whitelist, ',')
  {
    KeptPiecesClean(Split(text, ','), ',');
    Filter(TrimAll(Split(text, ',')), NonEmpty)
  }

  lemma ParseWhitelistMembership(text: string)
    ensures forall s :: s in ParseWhitelist(text) <==> s != [] && exists p :: p in Split(text, ',') && Trim(p) == s
  {
    KeptPieces(Split(text, ','));
  }

  /** Entries that are non-empty, trimmed and comma-free survive being
      written as a comma-separated list and parsed back. */
  lemma ParseWhitelistJoin(entries: seq<string>)
    requires |entries| >= 1
    requires AllEntries(entries, ',')
    ensures ParseWhitelist(Join(entries, ',')) == entries
  {
    SplitJoin(entries, ',');
    var trimmed := TrimAll(entries);
    assert trimmed == entries;
    FilterKeepsAll(entries, NonEmpty);
  }
}
