/** The policy kept in `chrome.storage.local` and shared by the background
    worker, the content script and the two settings pages, plus the
    messages and outcomes of the settings pages' handlers. */
module Policy {
  import opened Wrappers
  import opened Strings

  /** The `mode` of a blocked site. */
  datatype Mode = Normal | Strict

  /** An entry of the `blockedSites` list. */
  datatype BlockedSite = BlockedSite(url: string, mode: Mode)

  /** A value of the `strictBlocks` object. Times are milliseconds since the
      epoch (the stored ISO strings, parsed). */
  datatype StrictBlock = StrictBlock(active: bool, expiry: int, created: int)

  /** A value of the `focusSessions` object. */
  datatype FocusSession = FocusSession(active: bool, expiry: int, whitelist: seq<string>, created: int)

  /** A JavaScript object used as a dictionary: its own keys in insertion
      order, and the value stored under each. */
  datatype Dict<V> = Dict(keys: seq<string>, entries: map<string, V>) {

    ghost predicate Valid() {
      && Unique(keys)
      && (forall k :: k in entries <==> k in keys)
    }

    /** `obj[k] = v`: a new key is appended to the key order, an existing
        key keeps its place. */
    function Put(k: string, v: V): (d: Dict<V>)
      requires Valid()
      ensures d.Valid()
      ensures d.entries == entries[k := v]
      ensures d.keys == if k in entries then keys else keys + [k]
    {
      assert k !in entries ==> Unique(keys + [k]) by {
        if k !in entries { UniqueAppend(keys, k); }
      }
      Dict(if k in entries then keys else keys + [k], entries[k := v])
    }

    /** `Object.values(obj)`, in key order. */
    function Values(): (vs: seq<V>)
      requires Valid()
      ensures |vs| == |keys|
      ensures forall i :: 0 <= i < |keys| ==> vs[i] == entries[keys[i]]
    {
      seq(|keys|, i requires 0 <= i < |keys| => entries[keys[i]])
    }
  }

  /** No key occurs twice, stated one key at a time from the end. */
  ghost predicate Unique(keys: seq<string>) {
    keys == [] || (keys[|keys| - 1] !in keys[..|keys| - 1] && Unique(keys[..|keys| - 1]))
  }

  /** Appending a new key keeps the keys unique. */
  lemma UniqueAppend(keys: seq<string>, k: string)
    requires Unique(keys) && k !in keys
    ensures Unique(keys + [k])
  {
    assert (keys + [k])[..|keys|] == keys;
  }

  /** In a unique key order, no key occurs before its own position. */
  lemma {:induction false} UniqueAt(keys: seq<string>, i: int)
    requires Unique(keys) && 0 <= i < |keys|
    ensures keys[i] !in keys[..i]
  {
    if i < |keys| - 1 {
      var init := keys[..|keys| - 1];
      UniqueAt(init, i);
      assert init[..i] == keys[..i];
    }
  }

  /** The same, for any two positions. */
  lemma UniquePositions(keys: seq<string>, i: int, j: int)
    requires Unique(keys) && 0 <= i < j < |keys|
    ensures keys[i] != keys[j]
  {
    UniqueAt(keys, j);
    assert keys[..j][i] == keys[i];
  }

  function EmptyDict<V>(): (d: Dict<V>)
    ensures d.Valid() && d.entries == map[]
  {
    Dict([], map[])
  }

  /** The storage keys the core reads and writes. */
  datatype Snapshot = Snapshot(
    blockedSites: seq<BlockedSite>,
    strictBlocks: Dict<StrictBlock>,
    whitelist: seq<string>,
    focusSessions: Dict<FocusSession>,
    incognitoBlocked: bool,
    disableUnlocked: bool)
  {
    ghost predicate Valid() {
      strictBlocks.Valid() && focusSessions.Valid()
    }
  }

  /** The values `init` stores for a fresh install. */
  function DefaultSnapshot(): (s: Snapshot)
    ensures s.Valid()
  {
    Snapshot([], EmptyDict(), [], EmptyDict(), false, false)
  }

  /** `chrome.storage.local`: one shared, mutable snapshot. */
  class LocalStore {
    var snapshot: Snapshot

    constructor ()
      ensures snapshot == DefaultSnapshot() && snapshot.Valid()
    {
      snapshot := DefaultSnapshot();
    }
  }

  /** The largest distance from the epoch, in milliseconds, that a `Date`
      can hold; ECMAScript's TimeClip turns any time beyond it into an
      invalid date, whose `toISOString` throws a `RangeError`. */
  const MaxTimeMs: int := 8_640_000_000_000_000

  /** A time a `Date` can hold. */
  predicate IsValidTime(t: int) {
    -MaxTimeMs <= t <= MaxTimeMs
  }

  /** A strict block that is still running at time `now`. */
  predicate IsLive(block: StrictBlock, now: int) {
    block.active && block.expiry > now
  }

  /** `strictBlocks[url] && strictBlocks[url].active && new Date(strictBlocks[url].expiry) > new Date()`:
      a stored, active block is in force exactly until its expiry, and a block
      in force now was in force at every earlier moment. */
  predicate StrictInForce(strict: Dict<StrictBlock>, url: string, now: int)
    ensures StrictInForce(strict, url, now) ==> url in strict.entries && forall t :: t <= now ==> IsLive(strict.entries[url], t)
    ensures url in strict.entries && strict.entries[url].active ==>
      (StrictInForce(strict, url, now) <==> now < strict.entries[url].expiry)
  {
    url in strict.entries && IsLive(strict.entries[url], now)
  }

  predicate IsActive(session: FocusSession) {
    session.active
  }

  /** `Object.values(focusSessions).filter((s) => s.active)`. */
  function ActiveSessions(sessions: Dict<FocusSession>): (active: seq<FocusSession>)
    requires sessions.Valid()
    ensures forall s :: s in active ==> s.active
  {
    Filter(sessions.Values(), IsActive)
  }

  /** A session is among the active ones exactly when some key holds it and it is active. */
  lemma ActiveSessionsMembership(sessions: Dict<FocusSession>, s: FocusSession)
    requires sessions.Valid()
    ensures s in ActiveSessions(sessions) <==> s.active && exists k :: k in sessions.entries && sessions.entries[k] == s
  {
    var vs := sessions.Values();
    if s in vs {
      var i :| 0 <= i < |vs| && vs[i] == s;
      assert sessions.keys[i] in sessions.entries;
    }
    if exists k :: k in sessions.entries && sessions.entries[k] == s {
      var k :| k in sessions.entries && sessions.entries[k] == s;
      var i :| 0 <= i < |sessions.keys| && sessions.keys[i] == k;
      assert vs[i] == s;
    }
  }

  /** A message a settings page sends to the background worker with
      `chrome.runtime.sendMessage`. */
  datatype Message =
    | AddStrictBlockMsg(url: string, duration: int)
    | StartFocusSessionMsg(duration: int, whitelist: seq<string>)
    | SetMasterPasswordMsg(password: string)

  /** Why a settings-page handler refused its input (the alert it shows). */
  datatype Rejection =
    | EmptyUrl
    | AlreadyBlocked
    | InvalidDuration
    | StrictBlockActive
    | AlreadyWhitelisted
    | DurationTooShort
    | EmptyWhitelist
    | MissingInput
    | PasswordTooShort
    | FocusCannotEnd

  /** What a settings-page handler did: refused, went through (possibly
      sending a message), or was cancelled by the user. */
  datatype Outcome = Rejected(why: Rejection) | Accepted(sent: Option<Message>) | Cancelled
}
