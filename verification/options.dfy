/** The options page: the handlers that edit the blocked list and the
    whitelist, start a focus session and check the typing challenge. Each
    handler reads the stored lists, refuses bad input with no change, and
    otherwise writes the updated list back (or returns the message it sends
    to the background worker). */
module Options {
  import opened Wrappers
  import opened Policy
  import opened Validation

  /** The characters a challenge string is drawn from. */
  const ChallengeChars := "ABCDEFGHIJKLMNOPQRSTUVWXYZabcdefghijklmnopqrstuvwxyz0123456789!@#$%^&*"

  class FocusGuardOptions {
    const store: LocalStore
    /** The string the user must retype; empty until one is generated. */
    var challengeString: string

    constructor (store: LocalStore)
      ensures this.store == store && challengeString == ""
    {
      this.store := store;
      challengeString := "";
    }

    /** `handleAddBlocked`: refuses empty text and a url already listed; a
        normal site is appended; a strict site needs a positive amount, is
        appended, and its duration in milliseconds is sent along. Refusals
        change nothing, and the list stays free of duplicate urls. */
    method HandleAddBlocked(input: string, mode: string, parsedDuration: Option<int>, unit: string) returns (outcome: Outcome)
      modifies store
      ensures var checked := NewSite(input, old(store.snapshot.blockedSites));
        checked.Failure? ==> outcome == Rejected(checked.error) && store.snapshot == old(store.snapshot)
      ensures var checked := NewSite(input, old(store.snapshot.blockedSites));
        checked.Success? && mode == "normal" ==>
          && outcome == Accepted(None)
          && store.snapshot == old(store.snapshot).(blockedSites := old(store.snapshot.blockedSites) + [BlockedSite(checked.value, Normal)])
      ensures var checked := NewSite(input, old(store.snapshot.blockedSites));
        checked.Success? && mode != "normal" && !ValidAmount(parsedDuration) ==>
          outcome == Rejected(InvalidDuration) && store.snapshot == old(store.snapshot)
      ensures var checked := NewSite(input, old(store.snapshot.blockedSites));
        checked.Success? && mode != "normal" && ValidAmount(parsedDuration) ==>
          && outcome == Accepted(Some(AddStrictBlockMsg(checked.value, parsedDuration.value * UnitMs(if unit == "minutes" then "hours" else unit))))
          && store.snapshot == old(store.snapshot).(blockedSites := old(store.snapshot.blockedSites) + [BlockedSite(checked.value, Strict)])
      ensures DistinctUrls(old(store.snapshot.blockedSites)) ==> DistinctUrls(store.snapshot.blockedSites)
    {
      var blockedSites := store.snapshot.blockedSites;
      var checked := NewSite(input, blockedSites);
      if checked.Failure? {
        return Rejected(checked.error);
      }
      var cleanUrl := checked.value;
      if mode == "normal" {
        if DistinctUrls(blockedSites) {
          AddKeepsDistinct(blockedSites, input, Normal);
        }
        blockedSites := blockedSites + [BlockedSite(cleanUrl, Normal)];
        store.snapshot := store.snapshot.(blockedSites := blockedSites);
        outcome := Accepted(None);
      } else {
        if parsedDuration.None? || parsedDuration.value == 0 || parsedDuration.value <= 0 {
          return Rejected(InvalidDuration);
        }
        var durationMs := StrictDurationMs(parsedDuration.value, unit);
        if DistinctUrls(blockedSites) {
          AddKeepsDistinct(blockedSites, input, Strict);
        }
        blockedSites := blockedSites + [BlockedSite(cleanUrl, Strict)];
        store.snapshot := store.snapshot.(blockedSites := blockedSites);
        outcome := Accepted(Some(AddStrictBlockMsg(cleanUrl, durationMs)));
      }
    }

    /** `handleRemoveBlocked`: a site whose strict block is still in force
        cannot be removed; otherwise every entry with that url is dropped and
        the others keep their order. */
    method HandleRemoveBlocked(url: string, now: int) returns (outcome: Outcome)
      modifies store
      ensures StrictInForce(old(store.snapshot.strictBlocks), url, now) ==>
        outcome == Rejected(StrictBlockActive) && store.snapshot == old(store.snapshot)
      ensures !StrictInForce(old(store.snapshot.strictBlocks), url, now) ==>
        && outcome == Accepted(None)
        && store.snapshot == old(store.snapshot).(blockedSites := RemoveSite(old(store.snapshot.blockedSites), url))
      ensures DistinctUrls(old(store.snapshot.blockedSites)) ==> DistinctUrls(store.snapshot.blockedSites)
    {
      var blockedSites := store.snapshot.blockedSites;
      var strictBlocks := store.snapshot.strictBlocks;
      if url in strictBlocks.entries && strictBlocks.entries[url].active && strictBlocks.entries[url].expiry > now {
        return Rejected(StrictBlockActive);
      }
      if DistinctUrls(blockedSites) {
        RemoveSiteKeepsDistinct(blockedSites, url);
      }
      var updatedBlocked := RemoveSite(blockedSites, url);
      store.snapshot := store.snapshot.(blockedSites := updatedBlocked);
      outcome := Accepted(None);
    }

    /** `handleAddWhitelist`: refuses empty text and an entry already present,
        otherwise appends the cleaned url. */
    method HandleAddWhitelist(input: string) returns (outcome: Outcome)
      modifies store
      ensures var checked := NewWhitelistEntry(input, old(store.snapshot.whitelist));
        checked.Failure? ==> outcome == Rejected(checked.error) && store.snapshot == old(store.snapshot)
      ensures var checked := NewWhitelistEntry(input, old(store.snapshot.whitelist));
        checked.Success? ==>
          && outcome == Accepted(None)
          && store.snapshot == old(store.snapshot).(whitelist := old(store.snapshot.whitelist) + [checked.value])
    {
      var whitelist := store.snapshot.whitelist;
      var checked := NewWhitelistEntry(input, whitelist);
      if checked.Failure? {
        return Rejected(checked.error);
      }
      whitelist := whitelist + [checked.value];
      store.snapshot := store.snapshot.(whitelist := whitelist);
      outcome := Accepted(None);
    }

    /** `handleRemoveWhitelist`: drops every entry equal to the url. */
    method HandleRemoveWhitelist(url: string)
      modifies store
      ensures store.snapshot == old(store.snapshot).(whitelist := RemoveEntry(old(store.snapshot.whitelist), url))
      ensures url !in store.snapshot.whitelist
    {
      var whitelist := store.snapshot.whitelist;
      var updatedWhitelist := RemoveEntry(whitelist, url);
      store.snapshot := store.snapshot.(whitelist := updatedWhitelist);
    }

    /** `handleStartFocusSession`: needs at least five minutes and a
        non-empty stored whitelist; sends the minutes in milliseconds with
        that whitelist. Nothing is written to storage here. */
    method HandleStartFocusSession(parsedDuration: Option<int>) returns (outcome: Outcome)
      ensures !(parsedDuration.Some? && parsedDuration.value >= 5) ==> outcome == Rejected(DurationTooShort)
      ensures parsedDuration.Some? && parsedDuration.value >= 5 && store.snapshot.whitelist == [] ==>
        outcome == Rejected(EmptyWhitelist)
      ensures parsedDuration.Some? && parsedDuration.value >= 5 && store.snapshot.whitelist != [] ==>
        outcome == Accepted(Some(StartFocusSessionMsg(parsedDuration.value * 60000, store.snapshot.whitelist)))
      ensures outcome.Accepted? ==> outcome.sent.Some? && outcome.sent.value.duration >= 5 * 60000
    {
      if parsedDuration.None? || parsedDuration.value == 0 || parsedDuration.value < 5 {
        return Rejected(DurationTooShort);
      }
      var duration := parsedDuration.value;
      var whitelist := store.snapshot.whitelist;
      if |whitelist| == 0 {
        return Rejected(EmptyWhitelist);
      }
      var durationMs := duration * 60 * 1000;
      outcome := Accepted(Some(StartFocusSessionMsg(durationMs, whitelist)));
    }

    /** `handleGenerateChallenge`: stores a fresh 35-character string; the
        random draw itself is the `generated` input. */
    method HandleGenerateChallenge(generated: string)
      requires |generated| == 35 && forall i :: 0 <= i < |generated| ==> generated[i] in ChallengeChars
      modifies this`challengeString
      ensures challengeString == generated
    {
      challengeString := "";
      var i := 0;
      while i < 35
        invariant 0 <= i <= 35
        invariant challengeString == generated[..i]
      {
        challengeString := challengeString + [generated[i]];
        i := i + 1;
      }
    }

    /** `handleVerifyChallenge`: the settings unlock exactly when the typed
        text equals the challenge string, character for character; otherwise
        nothing changes. Before any challenge is generated the string is
        empty, so an empty answer unlocks. */
    method HandleVerifyChallenge(userInput: string) returns (unlocked: bool)
      modifies store
      ensures unlocked <==> userInput == challengeString
      ensures unlocked ==> store.snapshot == old(store.snapshot).(disableUnlocked := true)
      ensures !unlocked ==> store.snapshot == old(store.snapshot)
    {
      if userInput == challengeString {
        store.snapshot := store.snapshot.(disableUnlocked := true);
        unlocked := true;
      } else {
        unlocked := false;
      }
    }
  }
}
