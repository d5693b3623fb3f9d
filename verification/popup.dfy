/** The toolbar popup: the quick block, the quick focus session, the
    end-focus button that only explains itself, and the master-password
    prompt. */
module Popup {
  import opened Wrappers
  import opened Strings
  import opened Policy
  import opened Validation

  class FocusGuardPopup {
    const store: LocalStore

    constructor (store: LocalStore)
      ensures this.store == store
    {
      this.store := store;
    }

    /** `handleAddQuickBlock`: the same empty and duplicate checks as the
        options page; a normal site is appended; for a strict site a missing,
        zero or negative amount is refused before the list is touched, and
        otherwise the site is appended and `amount` in the chosen unit is
        sent as milliseconds. */
    method HandleAddQuickBlock(input: string, mode: string, parsedAmount: Option<int>, unit: string) returns (outcome: Outcome)
      modifies store
      ensures var checked := NewSite(input, old(store.snapshot.blockedSites));
        checked.Failure? ==> outcome == Rejected(checked.error) && store.snapshot == old(store.snapshot)
      ensures var checked := NewSite(input, old(store.snapshot.blockedSites));
        checked.Success? && mode == "normal" ==>
          && outcome == Accepted(None)
          && store.snapshot == old(store.snapshot).(blockedSites := old(store.snapshot.blockedSites) + [BlockedSite(checked.value, Normal)])
      ensures var checked := NewSite(input, old(store.snapshot.blockedSites));
        checked.Success? && mode != "normal" && !ValidAmount(parsedAmount) ==>
          outcome == Rejected(InvalidDuration) && store.snapshot == old(store.snapshot)
      ensures var checked := NewSite(input, old(store.snapshot.blockedSites));
        checked.Success? && mode != "normal" && ValidAmount(parsedAmount) ==>
          && outcome == Accepted(Some(AddStrictBlockMsg(checked.value, parsedAmount.value * UnitMs(unit))))
          && store.snapshot == old(store.snapshot).(blockedSites := old(store.snapshot.blockedSites) + [BlockedSite(checked.value, Strict)])
      ensures DistinctUrls(old(store.snapshot.blockedSites)) ==> DistinctUrls(store.snapshot.blockedSites)
    {
      var blockedSites := store.snapshot.blockedSites;
      var checked := NewSite(input, blockedSites);
      if checked.Failure? {
        return Rejected(checked.error);
      }
      var cleanUrl := checked.value;
      if mode == "normal" {
        if DistinctUrls(blockedSites) {
          AddKeepsDistinct(blockedSites, input, Normal);
        }
        blockedSites := blockedSites + [BlockedSite(cleanUrl, Normal)];
        store.snapshot := store.snapshot.(blockedSites := blockedSites);
        outcome := Accepted(None);
      } else {
        if parsedAmount.None? || parsedAmount.value == 0 || parsedAmount.value <= 0 {
          return Rejected(InvalidDuration);
        }
        var duration := QuickDurationMs(parsedAmount.value, unit);
        if DistinctUrls(blockedSites) {
          AddKeepsDistinct(blockedSites, input, Strict);
        }
        blockedSites := blockedSites + [BlockedSite(cleanUrl, Strict)];
        store.snapshot := store.snapshot.(blockedSites := blockedSites);
        outcome := Accepted(Some(AddStrictBlockMsg(cleanUrl, duration)));
      }
    }

    /** `handleEndFocus`: only tells the user that a session runs until its
        timer expires; no state changes. */
    method HandleEndFocus() returns (outcome: Outcome)
      ensures outcome.Rejected? && outcome.why == FocusCannotEnd
    {
      outcome := Rejected(FocusCannotEnd);
    }
  }

  /** `handleStartFocus`: both fields must be filled (the trimmed whitelist
      text non-empty, the parsed minutes neither NaN nor zero); the text is
      parsed into entries and the minutes are sent as milliseconds. Unlike
      the options page, neither a five-minute floor nor a non-empty parsed
      whitelist is required. */
  function StartFocus(whitelistText: string, parsedDuration: Option<int>): (outcome: Outcome)
    ensures outcome.Rejected? <==> Trim(whitelistText) == [] || parsedDuration.None? || parsedDuration.value == 0
    ensures outcome.Rejected? ==> outcome.why == MissingInput
    ensures outcome.Rejected? || outcome.Accepted?
    ensures outcome.Accepted? ==>
      && outcome.sent.Some?
      && outcome.sent.value == StartFocusSessionMsg(parsedDuration.value * 60000, ParseWhitelist(Trim(whitelistText)))
    ensures outcome.Accepted? && outcome.sent.Some? && outcome.sent.value.StartFocusSessionMsg? ==>
      forall i :: 0 <= i < |outcome.sent.value.whitelist| ==>
        outcome.sent.value.whitelist[i] != [] && ',' !in outcome.sent.value.whitelist[i]
  {
    var text := Trim(whitelistText);
    if text == [] || parsedDuration.None? || parsedDuration.value == 0 then
      Rejected(MissingInput)
    else
      var whitelist := ParseWhitelist(text);
      var durationMs := parsedDuration.value * 60000;
      Accepted(Some(StartFocusSessionMsg(durationMs, whitelist)))
  }

  /** A whitelist text holding only a comma parses to no entries. */
  lemma CommaOnlyWhitelistIsEmpty()
    ensures ParseWhitelist(",") == []
  {
    var pieces := Split(",", ',');
    assert Split(","[1..], ',') == [""];
    assert pieces == ["", ""];
    assert Trim("") == "";
  }

  /** A lone comma is not whitespace, so trimming keeps it. */
  lemma CommaIsTrimmed()
    ensures Trim(",") == ","
  {
    assert ","[0] == ',' && !IsWhitespace(',');
    assert TrimStart(",") == ",";
    assert TrimEnd(",") == ",";
  }

  /** A filled-in text whose pieces are all blank starts a session with an
      empty whitelist. */
  lemma BlankPiecesStartEmpty(text: string, minutes: int)
    requires text != [] && Trim(text) == text && ParseWhitelist(text) == []
    requires minutes > 0
    ensures StartFocus(text, Some(minutes)) == Accepted(Some(StartFocusSessionMsg(minutes * 60000, [])))
  {
  }

  /** The popup sends what the options page would refuse: a session shorter
      than five minutes whose whitelist text holds only a comma starts with
      no whitelisted site at all. */
  lemma StartFocusSkipsOptionsChecks(minutes: int)
    requires 0 < minutes < 5
    ensures StartFocus(",", Some(minutes)) == Accepted(Some(StartFocusSessionMsg(minutes * 60000, [])))
  {
    CommaIsTrimmed();
    CommaOnlyWhitelistIsEmpty();
    BlankPiecesStartEmpty(",", minutes);
  }

  /** `handleSetPassword`: a cancelled prompt (`None`) does nothing, a
      password shorter than four characters is refused, any other is sent
      to the background worker unchanged. */
  function SetPassword(password: Option<string>): (outcome: Outcome)
    ensures outcome == Cancelled <==> password.None?
    ensures outcome.Rejected? <==> password.Some? && |password.value| < 4
    ensures outcome.Rejected? ==> outcome.why == PasswordTooShort
    ensures outcome.Accepted? ==> password.Some? && outcome.sent == Some(SetMasterPasswordMsg(password.value)) && |password.value| >= 4
  {
    match password
    case None => Cancelled
    case Some(p) =>
      if |p| < 4 then Rejected(PasswordTooShort)
      else Accepted(Some(SetMasterPasswordMsg(p)))
  }
}
