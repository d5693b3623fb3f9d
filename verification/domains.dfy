/** Domain normalisation and subdomain-aware matching, shared by the
    background rule compiler, the content-script verdict and the two
    settings pages. */
module Domains {
  import opened Strings

  /** `url.replace(/^https?:\/\//, "")`: drops one leading `http://` or `https://`. */
  function StripScheme(url: string): (r: string)
    ensures StartsWith(url, "http://") ==> url == "http://" + r
    ensures StartsWith(url, "https://") ==> url == "https://" + r
    ensures !StartsWith(url, "http://") && !StartsWith(url, "https://") ==> r == url
  {
    if StartsWith(url, "http://") then
      assert url[4] == "http://"[4] != "https://"[4];
      url[7..]
    else if StartsWith(url, "https://") then url[8..]
    else url
  }

  /** `s.replace(/^www\./, "")`: drops one leading `www.`. */
  function StripWww(s: string): (r: string)
    ensures StartsWith(s, "www.") ==> s == "www." + r
    ensures !StartsWith(s, "www.") ==> r == s
  {
    if StartsWith(s, "www.") then s[4..] else s
  }

  /** `s.replace(/\/$/, "")`: drops one trailing `/`. */
  function StripTrailingSlash(s: string): (r: string)
    ensures EndsWith(s, "/") ==> s == r + "/"
    ensures !EndsWith(s, "/") ==> r == s
  {
    if EndsWith(s, "/") then s[..|s| - 1] else s
  }

  /** `cleanUrl`, written identically in options.js and popup.js: only a
      leading part and at most one trailing `/` are cut off, and a bare
      domain is left as it is. */
  function CleanUrl(url: string): (r: string)
    ensures EndsWith(url, r) || EndsWith(url, r + "/")
    ensures IsBareDomain(url) ==> r == url
  {
    StripsKeepSuffix(url);
    StripTrailingSlash(StripWww(StripScheme(url)))
  }

  /** Stripping the scheme and `www.` leaves a suffix of the url. */
  lemma StripsKeepSuffix(url: string)
    ensures EndsWith(url, StripWww(StripScheme(url)))
  {
    var a := StripScheme(url);
    assert EndsWith(url, a) by {
      if StartsWith(url, "http://") || StartsWith(url, "https://") {
        assert url[|url| - |a|..] == a;
      }
    }
    assert EndsWith(a, StripWww(a)) by {
      if StartsWith(a, "www.") {
        assert a[|a| - |StripWww(a)|..] == StripWww(a);
      }
    }
    EndsWithTransitive(url, a, StripWww(a));
  }

  /** A domain as `CleanUrl` produces it: no scheme, no `www.`, no trailing slash. */
  predicate IsBareDomain(d: string) {
    !StartsWith(d, "http://") && !StartsWith(d, "https://") && !StartsWith(d, "www.") && !EndsWith(d, "/")
  }

  /** Whether `p` is a prefix of `a + b` is decided by `a` alone once `a` is long enough. */
  lemma PrefixOfConcat(a: string, b: string, p: string)
    requires |p| <= |a|
    ensures StartsWith(a + b, p) <==> StartsWith(a, p)
  {
    assert (a + b)[..|p|] == a[..|p|];
  }

  /** Stripping the scheme undoes prepending one. */
  lemma StripSchemeOf(scheme: string, rest: string)
    requires scheme == "http://" || scheme == "https://"
    ensures StripScheme(scheme + rest) == rest
  {
    if scheme == "http://" {
      PrefixOfConcat("http://", rest, "http://");
      assert (scheme + rest)[7..] == rest;
    } else {
      assert !StartsWith(scheme + rest, "http://") by { assert (scheme + rest)[4] == 's'; }
      PrefixOfConcat("https://", rest, "https://");
      assert (scheme + rest)[8..] == rest;
    }
  }

  /** Stripping `www.` undoes prepending it. */
  lemma StripWwwOf(d: string)
    ensures StripWww("www." + d) == d
  {
    PrefixOfConcat("www.", d, "www.");
    assert ("www." + d)[4..] == d;
  }

  /** Stripping the scheme undoes prepending one, or none, to a `www.`-spelled domain. */
  lemma StripSchemeSpelling(d: string, scheme: string, www: string)
    requires !StartsWith(d, "http://") && !StartsWith(d, "https://")
    requires scheme == "" || scheme == "http://" || scheme == "https://"
    requires www == "" || www == "www."
    ensures StripScheme(scheme + www + d) == www + d
  {
    var rest := www + d;
    assert scheme + www + d == scheme + rest;
    if scheme != "" {
      StripSchemeOf(scheme, rest);
    } else if www == "www." {
      assert scheme + rest == rest;
      assert !StartsWith(rest, "http://") && !StartsWith(rest, "https://") by { assert rest[0] == 'w'; }
    } else {
      assert scheme + rest == d;
    }
  }

  /** Stripping the scheme and `www.` undoes prepending them. */
  lemma StripsSpelling(d: string, scheme: string, www: string)
    requires !StartsWith(d, "http://") && !StartsWith(d, "https://") && !StartsWith(d, "www.")
    requires scheme == "" || scheme == "http://" || scheme == "https://"
    requires www == "" || www == "www."
    ensures StripWww(StripScheme(scheme + www + d)) == d
  {
    StripSchemeSpelling(d, scheme, www);
    if www == "www." {
      StripWwwOf(d);
    } else {
      assert www + d == d;
    }
  }

  /** A bare domain followed by at most one slash still has no scheme or `www.` prefix. */
  lemma BareWithSlash(d: string, slash: string)
    requires IsBareDomain(d)
    requires slash == "" || slash == "/"
    ensures !StartsWith(d + slash, "http://") && !StartsWith(d + slash, "https://") && !StartsWith(d + slash, "www.")
  {
    if slash == "/" {
      var s := d + slash;
      assert s[|s| - 1] == '/';
      assert d != [] ==> d[|d| - 1] != '/' by {
        if d != [] { assert d[|d| - 1..] == [d[|d| - 1]]; }
      }
      if |d| >= 8 {
        PrefixOfConcat(d, slash, "https://");
      } else if |d| == 7 {
        assert s[6] == d[6];
      }
      if |d| >= 7 {
        PrefixOfConcat(d, slash, "http://");
      } else if |d| == 6 {
        assert s[5] == d[5];
      }
      if |d| >= 4 {
        PrefixOfConcat(d, slash, "www.");
      }
    } else {
      assert d + slash == d;
    }
  }

  /** `CleanUrl` recovers the bare domain from any of the twelve spellings
      a user may type: with or without a scheme, `www.` and a trailing slash. */
  lemma CleanUrlRecoversDomain(d: string, scheme: string, www: string, slash: string)
    requires IsBareDomain(d)
    requires scheme == "" || scheme == "http://" || scheme == "https://"
    requires www == "" || www == "www."
    requires slash == "" || slash == "/"
    ensures CleanUrl(scheme + www + d + slash) == d
  {
    BareWithSlash(d, slash);
    StripsSpelling(d + slash, scheme, www);
    assert scheme + www + d + slash == scheme + www + (d + slash);
    assert StripWww(StripScheme(scheme + www + d + slash)) == d + slash;
    StripTrailingSlashOf(d, slash);
  }

  /** Stripping the trailing slash undoes appending one to a bare domain. */
  lemma StripTrailingSlashOf(d: string, slash: string)
    requires IsBareDomain(d)
    requires slash == "" || slash == "/"
    ensures StripTrailingSlash(d + slash) == d
  {
    if slash == "/" {
      var s := d + slash;
      assert s[|s| - 1..] == "/";
      assert s[..|s| - 1] == d;
    } else {
      assert d + slash == d;
    }
  }

  /** `createUrlFilter`: the match pattern for a blocked site and all its
      subdomains; the domain between the fixed prefix and suffix is the url with
      one scheme and one `www.` stripped. */
  function CreateUrlFilter(url: string): (pattern: string)
    ensures |pattern| == |StripWww(StripScheme(url))| + 8
    ensures StartsWith(pattern, "*://*.") && EndsWith(pattern, "/*")
    ensures pattern[6..|pattern| - 2] == StripWww(StripScheme(url))
  {
    "*://*." + StripWww(StripScheme(url)) + "/*"
  }

  /** Adding a scheme or `www.` to a bare domain does not change its filter. */
  lemma CreateUrlFilterIgnoresSpelling(d: string, scheme: string, www: string)
    requires IsBareDomain(d)
    requires scheme == "" || scheme == "http://" || scheme == "https://"
    requires www == "" || www == "www."
    ensures CreateUrlFilter(scheme + www + d) == "*://*." + d + "/*"
  {
    StripsSpelling(d, scheme, www);
  }

  /** `domain === anchor || domain.endsWith("." + anchor)`: the domain is the
      anchor itself or one of its dot-separated subdomains. */
  predicate SuffixMatch(domain: string, anchor: string) {
    domain == anchor || EndsWith(domain, "." + anchor)
  }

  /** The subdomain relation is antisymmetric ... */
  lemma SuffixMatchAntisymmetric(a: string, b: string)
    requires SuffixMatch(a, b) && SuffixMatch(b, a)
    ensures a == b
  {
  }

  /** ... and transitive: a subdomain of a subdomain is a subdomain. */
  lemma SuffixMatchTransitive(a: string, b: string, c: string)
    requires SuffixMatch(a, b) && SuffixMatch(b, c)
    ensures SuffixMatch(a, c)
  {
    if a != b && b != c {
      var n := |a| - |b|;
      assert a[n..] == b by { assert a[|a| - |b| - 1..] == "." + b; }
      var k := |b| - |c| - 1;
      assert b[k..] == "." + c;
      assert a[n + k..] == a[n..][k..];
      assert a[|a| - |c| - 1..] == "." + c;
    }
  }

  /** Where the anchor sits in a matching domain: it is the whole domain,
      or its tail, right after a dot. */
  lemma SuffixMatchAt(domain: string, anchor: string)
    ensures SuffixMatch(domain, anchor) <==>
      || domain == anchor
      || (|anchor| < |domain| && domain[|domain| - |anchor| - 1] == '.' && domain[|domain| - |anchor|..] == anchor)
  {
    var n := |domain| - |anchor| - 1;
    if |anchor| < |domain| {
      assert domain[n..] == [domain[n]] + domain[n + 1..];
    }
  }

  /** `isDomainBlocked` of the content script: the page's domain is the blocked
      domain (scheme and `www.` stripped) or a subdomain of it, split off at a dot. */
  predicate IsDomainBlocked(currentDomain: string, blockedUrl: string)
    ensures var site := StripWww(StripScheme(blockedUrl));
      IsDomainBlocked(currentDomain, blockedUrl) <==>
        || currentDomain == site
        || (|site| < |currentDomain| && currentDomain[|currentDomain| - |site| - 1] == '.'
            && currentDomain[|currentDomain| - |site|..] == site)
  {
    SuffixMatchAt(currentDomain, StripWww(StripScheme(blockedUrl)));
    SuffixMatch(currentDomain, StripWww(StripScheme(blockedUrl)))
  }

  /** A url starting with neither `h` nor `w` is its own domain. */
  lemma PlainDomain(url: string)
    requires url != [] && url[0] != 'h' && url[0] != 'w'
    ensures StripWww(StripScheme(url)) == url
  {
    assert !StartsWith(url, "http://") by { assert "http://"[0] == 'h'; }
    assert !StartsWith(url, "https://") by { assert "https://"[0] == 'h'; }
    assert !StartsWith(url, "www.") by { assert "www."[0] == 'w'; }
  }

  /** Matching is not symmetric: a subdomain matches its parent, not conversely,
      and a name that merely ends with the same letters does not match. */
  lemma IsDomainBlockedNotSymmetric()
    ensures IsDomainBlocked("x.a.com", "a.com")
    ensures !IsDomainBlocked("a.com", "x.a.com")
    ensures !IsDomainBlocked("notexample.com", "example.com")
  {
    SubdomainBlocked();
    ParentNotBlocked();
    LookalikeNotBlocked();
  }

  lemma SubdomainBlocked()
    ensures IsDomainBlocked("x.a.com", "a.com")
  {
    PlainDomain("a.com");
    assert "x.a.com"[2..] == "a.com";
    assert "x.a.com"[1..] == ".a.com";
  }

  lemma ParentNotBlocked()
    ensures !IsDomainBlocked("a.com", "x.a.com")
  {
    PlainDomain("x.a.com");
  }

  lemma LookalikeNotBlocked()
    ensures !IsDomainBlocked("notexample.com", "example.com")
  {
    PlainDomain("example.com");
    assert "notexample.com"[2] == 't';
    assert ("." + "example.com")[0] == '.';
  }

  /** The whitelist test inside `whitelist.some(...)`: `www.` is stripped
      from the entry (the caller has already stripped it from the host). */
  predicate MatchesAllowed(domain: string, allowedDomain: string)
    ensures var allowed := StripWww(allowedDomain);
      MatchesAllowed(domain, allowedDomain) <==>
        || domain == allowed
        || (|allowed| < |domain| && domain[|domain| - |allowed| - 1] == '.'
            && domain[|domain| - |allowed|..] == allowed)
  {
    SuffixMatchAt(domain, StripWww(allowedDomain));
    SuffixMatch(domain, StripWww(allowedDomain))
  }

  /** `whitelist.some(allowed => MatchesAllowed(domain, allowed))`. */
  function AnyAllowed(domain: string, whitelist: seq<string>): (r: bool)
    ensures r <==> exists i :: 0 <= i < |whitelist| && MatchesAllowed(domain, whitelist[i])
  {
    if whitelist == [] then false
    else MatchesAllowed(domain, whitelist[0]) || AnyAllowed(domain, whitelist[1..])
  }
}
