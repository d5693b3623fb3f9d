# FocusGuard policy and rule engine in Dafny

FocusGuard is a browser extension that blocks websites. Its policy lives in
the extension's local storage:

- a `blockedSites` list of `{url, mode}` entries (mode `normal` or `strict`);
- a `strictBlocks` object from url to `{active, expiry, created}`;
- a `focusSessions` object from session id to `{active, expiry, whitelist, created}`.

The background worker compiles the policy into declarativeNetRequest redirect
rules. It starts and ends strict blocks and focus sessions, and it reacts to
alarms and storage changes. At startup it restores strict blocks from a
backup. The content script decides, page by page, whether to show a block
page. The options page and the toolbar popup check and normalise what the
user types before they change the lists.

This project models that logic and proves properties of it.

- **Time** is an integer count of milliseconds.
- **Storage** is one shared `LocalStore` object holding a `Snapshot` value.
- **Pending alarms** are a map from alarm name to due time.
- **Installed dynamic rules** are a sequence of `Rule` values.
- **JavaScript objects** used as dictionaries are `Dict` values: the keys in
  insertion order (as `Object.keys`/`Object.entries` enumerate them) together
  with a map.
- **Values the code obtains from the browser or the user are parameters.**
  The current time, the hostname `new URL(...)` yields (`None` when the
  constructor throws), the result of `parseInt` (`None` for NaN), the
  IndexedDB backup, and the random challenge string are all passed in.

Modules and files:

- `wrappers.dfy` (module `Wrappers`): `Option` and `Result`.
- `strings.dfy` (module `Strings`): the JavaScript string and array built-ins
  the code uses, namely `startsWith`, `endsWith`, `trim`, `split`, `join`,
  `filter` and decimal printing, each with the properties the rest relies on.
- `domains.dfy` (module `Domains`): `cleanUrl`, `createUrlFilter`,
  `isDomainBlocked`, and the whitelist suffix match.
- `policy.dfy` (module `Policy`):
  - the stored records and the insertion-ordered `Dict`;
  - the `Snapshot` and the `LocalStore` class;
  - the "in force" tests;
  - the messages and outcomes of the settings pages.
- `rules.dfy` (module `Rules`): the rule datatypes, the reference definition
  `CompileRules` of the list `loadBlockingRules` installs, and what that list
  guarantees.
- `background.dfy` (module `Background`): the class `FocusGuardCore`. Its
  methods are the worker's handlers. Each loop of the source is a method with
  loop invariants, proved against a specification function.
- `blocker.dfy` (module `Blocker`): the content script's verdict and the
  remaining-time figures of its block pages.
- `validation.dfy` (module `Validation`): the checks and conversions that
  the options page and the popup share.
- `options.dfy` (module `Options`) and `popup.dfy` (module `Popup`): the two
  settings pages. Handlers that change storage are methods of a class.
  Handlers that only send a message return it as an `Outcome`.

## Model

| member | source | states |
|---|---|---|
| Strings.Trim | options.js:88 | `trim()` returns a slice of the input with only whitespace cut off before and after it; it is empty exactly for all-whitespace input, and otherwise begins and ends with a non-whitespace character, so the cut whitespace runs are the longest ones |
| Strings.TrimIdempotent | popup.js:122-134 | trimming a piece that is already trimmed changes nothing |
| Strings.TrimKeepsChars | popup.js:134 | trimming only removes characters |
| Strings.Split | popup.js:133 | `split(",")` gives at least one piece, and no piece contains the separator |
| Strings.JoinSplit | popup.js:133 | joining the pieces of a split with the separator gives back the original text |
| Strings.SplitPrefix | popup.js:133 | a separator-free prefix joins the first piece of the rest |
| Strings.SplitJoin | popup.js:133 | splitting separator-free pieces joined by the separator gives back the pieces |
| Strings.Filter | options.js:155 | `filter` keeps exactly the elements that pass, and never lengthens the list |
| Strings.FilterConcat | options.js:155 | `filter` keeps relative order: it distributes over concatenation |
| Strings.FilterKeepsAll | popup.js:135 | when every element passes, `filter` returns the list unchanged |
| Strings.NatToDecimal | background.js:238 | the decimal text of a time stamp is non-empty and all digits, a single digit exactly below ten, with no leading zero except for zero itself |
| Strings.NatToDecimalValue | background.js:238 | reading the printed digits back as a decimal number gives the time stamp |
| Strings.NatToDecimalInjective | background.js:238 | different time stamps print as different digit strings |
| Strings.IntToDecimal | background.js:238 | the text starts with a minus sign exactly for a negative number |
| Strings.IntToDecimalInjective | background.js:238 | different integers print differently, signs included |
| Domains.StripScheme | options.js:384 | one leading `http://` or `https://` is removed, and a url with neither is returned unchanged |
| Domains.StripWww | options.js:385 | one leading `www.` is removed, and otherwise nothing changes |
| Domains.StripTrailingSlash | options.js:386 | one trailing `/` is removed, and otherwise nothing changes |
| Domains.CleanUrl | options.js:382-387 | `cleanUrl` only cuts off a leading part and at most one trailing `/`: the url ends with the result, or with the result plus `/`; a bare domain comes back unchanged |
| Domains.StripsSpelling | background.js:194 | stripping the scheme and then `www.` undoes prepending any of the six scheme/`www.` spellings to a bare domain |
| Domains.CleanUrlRecoversDomain | options.js:382-387 | `cleanUrl` recovers a bare domain from each of the twelve spellings a user may type: with or without a scheme, `www.` and a trailing slash; the identical copy in popup.js:238-243 is the same function, modelled once |
| Domains.CreateUrlFilter | background.js:192-196 | the filter is `*://*.` + the url without one scheme and one `www.` + `/*` |
| Domains.CreateUrlFilterIgnoresSpelling | background.js:192-196 | every scheme/`www.` spelling of a bare domain gives the same filter `*://*.<domain>/*` |
| Domains.PlainDomain | content_scripts/blocker.js:274-276 | a url that starts with neither `h` nor `w` is its own blocked domain |
| Domains.SuffixMatchAntisymmetric | content_scripts/blocker.js:277-280 | if two domains match each other both ways, they are equal |
| Domains.SuffixMatchTransitive | content_scripts/blocker.js:277-280 | a subdomain of a subdomain matches the outer domain |
| Domains.IsDomainBlocked | content_scripts/blocker.js:273-281 | the page's domain is blocked exactly when it equals the blocked url without scheme and `www.`, or ends with it right after a `.` |
| Domains.IsDomainBlockedNotSymmetric | content_scripts/blocker.js:273-281 | `x.a.com` is blocked by `a.com`, `a.com` is not blocked by `x.a.com`, and `notexample.com` is not blocked by `example.com` |
| Domains.MatchesAllowed | content_scripts/blocker.js:288-291 | a domain matches a whitelist entry exactly when it equals the entry without `www.`, or ends with it right after a `.` |
| Domains.AnyAllowed | content_scripts/blocker.js:288-291 | `some` is true exactly when some entry, with `www.` stripped, equals the domain or is a dot-suffix of it |
| Policy.Dict.Put | background.js:213-217 | `obj[k] = v` stores `v` under `k`, keeps every other entry, appends a new key to the key order, and keeps the keys unique |
| Policy.Dict.Values | background.js:165 | `Object.values` lists the stored values in key order |
| Policy.UniqueAt | background.js:245 | in an object's key order, no key occurs before its own position |
| Policy.UniquePositions | background.js:245 | two different positions of an object's key order hold different keys |
| Policy.DefaultSnapshot | background.js:11-19 | the defaults a fresh install stores form a well-formed snapshot |
| Policy.StrictInForce | options.js:146-150 | a stored, active strict block is in force exactly until its expiry; a block in force now has a stored entry and was in force at every earlier moment (the content script applies the same test, content_scripts/blocker.js:47-58) |
| Policy.LocalStore.constructor | background.js:21-26 | storage starts with the defaults |
| Policy.ActiveSessions | background.js:165 | `Object.values(...).filter(s => s.active)` holds only active sessions |
| Policy.ActiveSessionsMembership | background.js:165 | a session is in that list exactly when it is active and stored under some key |
| Rules.NormalRule | background.js:122-138 | the normal rule has the given id and priority 1, a url filter `*://*.<domain>/*` whose domain is the url without scheme and `www.`, no excluded domains, main frames only, and a redirect to the normal block page naming the site |
| Rules.StrictRule | background.js:145-160 | the strict rule matches exactly what the normal rule for the same url and id matches, outranks it, and redirects to the strict block page naming the site |
| Rules.FocusRule | background.js:168-179 | the focus rule matches every main frame outside the session's whitelist, has no url filter, outranks every strict rule, and redirects to the focus block page without a site |
| Rules.NormalRules | background.js:120-139 | normal rules are unnumbered, have priority 1, apply to main frames only, and there is at most one per blocked site |
| Rules.StrictRules | background.js:143-161 | strict rules are unnumbered, have priority 2, apply to main frames only, and there is at most one per key |
| Rules.FocusRules | background.js:164-180 | there is at most one focus rule; it has priority 3 and applies to main frames only |
| Rules.NumberedAppend | background.js:123 | pushing a rule with the next `ruleId++` keeps the ids at 1, 2, …, n in emission order |
| Rules.WithIdsNumbered | background.js:117 | numbering from 1 gives ids 1, 2, …, n, position by position |
| Rules.NumberedIsWithIds | background.js:117 | a list numbered 1, 2, …, n position by position is the reference numbering |
| Rules.CompileRules | background.js:108-180 | the installed list is normal, then strict, then focus rules; ids are 1, 2, …, n in emission order, so they are unique; every rule is limited to `main_frame` |
| Rules.AllRulesMainFrame | background.js:134-137 | every compiled rule has resource types `["main_frame"]` |
| Rules.NormalRulesMembership | background.js:120-121 | a normal rule for a url is emitted exactly when the url is in the blocked list and `strictBlocks` has no key for it |
| Rules.StrictRulesMembership | background.js:143-144 | a strict rule for a url is emitted exactly when the url is a key whose block is active with expiry after now |
| Rules.StrictRulesInForce | background.js:143-144 | the same, stated for a `strictBlocks` object |
| Rules.Classify | background.js:124 | a rule's position decides its priority: 1 for the normal part, 2 for the strict part, 3 for the focus rule |
| Rules.CompiledNormalRule | background.js:120-139 | the installed list holds a priority-1 rule for a url exactly when a blocked site has that url and `strictBlocks` has no key for it, whether active or not |
| Rules.CompiledNormalRuleOnlyIf | background.js:120-139 | an installed normal rule comes from a blocked site without a strict key |
| Rules.CompiledNormalRuleIf | background.js:120-139 | such a site yields an installed normal rule |
| Rules.CompiledStrictRule | background.js:143-161 | the installed list holds a priority-2 rule for a url exactly when its strict entry is active and unexpired at now |
| Rules.CompiledStrictRuleOnlyIf | background.js:143-161 | an installed strict rule comes from a strict entry in force |
| Rules.CompiledStrictRuleIf | background.js:143-161 | a strict entry in force yields an installed strict rule |
| Rules.ExpiredStrictUnblocks | background.js:121 | a strict entry that is no longer in force suppresses both the normal and the strict rule for its url |
| Rules.CompiledFocusRule | background.js:164-180 | a focus rule is installed exactly when some session is active; it is the last rule, the only priority-3 rule, and excludes exactly the first active session's whitelist |
| Rules.FocusRuleAt | background.js:166-179 | a priority-3 rule is the last rule and carries the first active session's whitelist |
| Rules.FocusRuleLast | background.js:166-179 | with a session active, the last installed rule is the focus rule |
| Rules.CompiledPrioritiesAscend | background.js:124 | priorities never decrease along the installed list |
| Background.StrictAlarmName | background.js:222 | a strict alarm's name is `strict_` followed by the url, and never starts with `focus_` |
| Background.FocusAlarmName | background.js:260 | a focus alarm's name is `focus_` followed by the session id, and never starts with `strict_` |
| Background.SessionId | background.js:238 | a session id is `session_` followed by the decimal clock reading |
| Background.SessionIdInjective | background.js:238 | sessions started at different milliseconds get different ids |
| Background.DecodeAlarm | background.js:65-73 | a name starting with `strict_` ends that strict block; otherwise, a name starting with `focus_` ends that session; any other name is ignored; the decoded key rebuilds the name |
| Background.StrictAlarmRoundTrip | background.js:222 | the alarm `addStrictBlock` schedules is decoded back to the same url |
| Background.FocusAlarmRoundTrip | background.js:260 | the alarm `startFocusSession` schedules is decoded back to the same session |
| Background.StrictAlarmNameInjective | background.js:222 | different urls get different strict alarms |
| Background.FocusAlarmNameInjective | background.js:260 | different sessions get different focus alarms |
| Background.IsUrlInWhitelist | background.js:198-206 | a url that does not parse makes the background check throw; otherwise the host, with `www.` stripped, is whitelisted exactly when some entry, with `www.` stripped, equals it or is a dot-suffix of it |
| Background.TriggersRecompile | background.js:77-81 | a storage change triggers a recompile exactly when it is in the local area and touches one of the keys `blockedSites`, `strictBlocks`, `focusSessions` |
| Background.ChangedKeys | background.js:75-85 | only storage keys of the snapshot can be reported as changed |
| Background.KeyIf | background.js:77-81 | a key is reported exactly when its value changed |
| Background.UntriggeredChangeKeepsRules | background.js:75-85 | a local change that does not touch `blockedSites`, `strictBlocks` or `focusSessions` cannot change the compiled rules, so skipping recompilation loses nothing |
| Background.EndStrict | background.js:228-235 | with the key present, only `active` is switched off (expiry, created and key order are kept); with it absent, nothing changes; every other entry is kept |
| Background.EndSession | background.js:265-272 | the same for `focusSessions`: only the `active` flag of an existing session changes |
| Background.DeactivateKeys | background.js:245-250 | visiting keys keeps the key order and a well-formed object |
| Background.DeactivateKeysEntries | background.js:245-250 | visited sessions are switched off, and every field of every session is otherwise kept |
| Background.DeactivateAll | background.js:244-250 | after the loop, every session is switched off and nothing else has changed |
| Background.StartSession | background.js:244-257 | the sessions after `startFocusSession` form a well-formed object |
| Background.StartActiveFlags | background.js:244-257 | after a start, the new session is the only stored session that is active |
| Background.StartActiveList | background.js:244-257 | after a start, the active-session list is exactly `[new session]` |
| Background.StartLeavesOneActive | background.js:244-257 | after `startFocusSession` exactly one session is active, the new one; every earlier session is inactive |
| Background.StartedSessionCompiles | background.js:252-259 | after a start, the compiler emits the focus rule last, and it excludes exactly the new session's whitelist |
| Background.ActiveAlarmsMembership | background.js:245-248 | the loop clears exactly the `focus_` alarms of the sessions that were active |
| Background.StartAlarms | background.js:244-260 | the new session's `focus_` alarm is scheduled at its expiry |
| Background.StartAlarmsEffect | background.js:244-260 | `startFocusSession` clears the alarm of every other session that was active, and leaves every alarm that is not a focus alarm as it was |
| Background.EndActiveSessions | background.js:244-250 | the loop over `Object.keys(focusSessions)` switches every session off and clears exactly the alarms of the active ones |
| Background.ReplaceSessions | background.js:244-260 | ending the old sessions and then storing and scheduling the new one gives the specified sessions and alarms |
| Background.BackupOrEmpty | background.js:280 | a missing backup reads as the empty object |
| Background.MergeLive | background.js:280-288 | the merged `strictBlocks` is a well-formed object |
| Background.MergeLiveEntries | background.js:280-288 | after the merge, every backup entry in force is present with the backup's value; every other primary entry is kept; no other key appears |
| Background.RearmLiveAlarms | background.js:283-285 | every backup entry in force gets its `strict_` alarm at its expiry, and no non-strict alarm changes |
| Background.MergeBackup | background.js:279-288 | the loop computes the merge and the re-armed alarms; `updated` is true exactly when some backup entry was in force; otherwise nothing is merged |
| Background.MergeRestoresStrictRules | background.js:274-293 | after the merge, every backup entry in force compiles to its strict rule again |
| Background.AddedStrictBlockCompiles | background.js:208-219 | after a strict block of positive duration is added, its strict rule is compiled and no normal rule for that url is |
| Background.EndedStrictBlockUnblocks | background.js:228-235 | once a strict block has been switched off, no rule for its url is compiled, at any time |
| Background.PushNormalRules | background.js:116-140 | the first loop builds exactly the numbered normal rules, and `ruleId` ends one past the last id |
| Background.PushStrictRules | background.js:142-162 | the second loop appends exactly the strict rules, numbered on from the normal ones |
| Background.FocusGuardCore.constructor | background.js:3-7 | the worker attaches to the storage, pending alarms and installed dynamic rules it finds, changing none of them |
| Background.FocusGuardCore.LoadBlockingRules | background.js:108-190 | the installed list is replaced by exactly `CompileRules(snapshot, now)` |
| Background.FocusGuardCore.AddStrictBlock | background.js:208-226 | when now + duration is a time a `Date` can hold, `strictBlocks[url]` becomes active with that expiry, every other key is unchanged, and alarm `strict_<url>` is set to the expiry; otherwise `toISOString` throws and neither storage nor alarms change |
| Background.FocusGuardCore.StoreStrictBlock | background.js:212-222 | once the expiry is known to be valid, `strictBlocks[url]` becomes active with it, every other key is unchanged, and alarm `strict_<url>` is set to it |
| Background.FocusGuardCore.RemoveStrictBlock | background.js:228-235 | with the key present, the block is switched off and its alarm cleared; with it absent, storage and alarms are unchanged |
| Background.FocusGuardCore.StartFocusSession | background.js:237-263 | when now + duration is a time a `Date` can hold, the id `session_<now>` is returned and sessions and alarms become `StartSession` and `StartAlarms` of the old ones; otherwise `toISOString` throws after the loop: no id, storage unchanged, and only the alarms of the sessions that were active are cleared |
| Background.FocusGuardCore.EndFocusSession | background.js:265-272 | with the session present, it is switched off and its alarm cleared; with it absent, nothing changes |
| Background.FocusGuardCore.HandleAlarm | background.js:65-73 | a strict alarm ends its block, a focus alarm ends its session, and any other alarm changes nothing |
| Background.FocusGuardCore.HandleStorageChange | background.js:75-85 | the rules are recompiled exactly when a rule key changed in the local area; otherwise the installed list is kept |
| Background.FocusGuardCore.CheckStrictTimers | background.js:274-293 | every backup entry in force is copied over `strictBlocks` and its alarm re-armed; `strictBlocks` is written back only when something was copied |
| Blocker.IsUrlInWhitelist | content_scripts/blocker.js:283-295 | a url that does not parse is not whitelisted (fail-closed); otherwise the host and each entry lose one `www.` before the equality or dot-suffix test |
| Blocker.WhitelistIgnoresWww | content_scripts/blocker.js:286-290 | all four `www.` spellings of a host and an entry give the same answer |
| Blocker.WhitelistChecksAgree | content_scripts/blocker.js:283-295 | the content script and the background worker agree on every url that parses; where the background throws, the content script says no |
| Blocker.FindBlockedSite | content_scripts/blocker.js:44-46 | `find` returns the first blocked site covering the domain, and nothing exactly when none covers it |
| Blocker.FocusBlocks | content_scripts/blocker.js:29-40 | a focus block needs an active stored session; for a page whose url does not parse, it happens exactly when some session is active |
| Blocker.CheckCurrentPage | content_scripts/blocker.js:16-60 | a focus block happens exactly when a session is active and the page is not whitelisted; otherwise the first covering site decides, strict exactly when its strict entry is in force and normal otherwise, and the page is allowed exactly when no site covers it |
| Blocker.FocusVerdictIgnoresBlockedList | content_scripts/blocker.js:29-40 | when the focus session blocks, the blocked list cannot change the verdict |
| Blocker.ExpiredStrictStillShowsNormalPage | content_scripts/blocker.js:47-58 | when the first blocked site covering the page, at any position of the list, has a strict entry that ran out, the page gets the normal block page for it, while the compiler emits no rule for it at all |
| Blocker.RemainingUnits | content_scripts/blocker.js:169-171 | `ceil(max(0, expiry - now) / unit)` is zero exactly when the expiry has passed; otherwise it is the smallest count of whole units covering the rest |
| Blocker.RemainingHours | content_scripts/blocker.js:169-171 | the hours shown are never negative, are zero exactly at or after expiry, and are rounded up |
| Blocker.RemainingMinutes | content_scripts/blocker.js:188-193 | the minutes shown are never negative, are zero exactly at or after expiry, and are rounded up |
| Validation.NewSite | options.js:88-103 | empty trimmed input is refused, and so is a cleaned url already in the list; otherwise the result is the cleaned url, not yet listed; the popup's quick block (popup.js:52-67) applies the same two refusals |
| Validation.NewWhitelistEntry | options.js:161-174 | empty input and an entry already whitelisted are refused; otherwise the cleaned url is returned |
| Validation.ValidAmount | options.js:114 | an amount is accepted exactly when the refusal test (`!amount`, or else `amount <= 0`) fails: it parsed, and is neither zero nor negative (the popup applies the same test, popup.js:79) |
| Validation.UnitMs | popup.js:85-101 | one unit is at least a minute: minutes 60000, days 86400000, weeks 604800000, and hours or anything else 3600000 |
| Validation.QuickDurationMs | popup.js:85-101 | the quick-block `switch` gives amount × the unit's milliseconds, and it is positive for a positive amount |
| Validation.StrictDurationMs | options.js:119-121 | the options page takes the amount as hours, times 24 for days and 168 for weeks; minutes also count as hours |
| Validation.AddKeepsDistinct | options.js:99-106 | an accepted add keeps the blocked list free of duplicate urls |
| Validation.RemoveSite | options.js:155 | removal keeps exactly the entries with a different url |
| Validation.RemoveSiteConcat | options.js:155 | removal keeps the other entries in order |
| Validation.RemoveSiteUndoesAdd | options.js:155 | removing a site that was just appended gives back the list |
| Validation.RemoveSiteKeepsDistinct | options.js:155 | removal keeps the list free of duplicate urls |
| Validation.RemoveEntry | options.js:185 | whitelist removal deletes every equal entry and nothing else |
| Validation.RemoveEntryUndoesAdd | options.js:185 | removing a whitelist entry that was just appended gives back the list |
| Validation.TrimAll | popup.js:134 | `map(site => site.trim())` trims each piece in place |
| Validation.ParseWhitelist | popup.js:132-135 | every parsed entry is non-empty, already trimmed and free of commas |
| Validation.ParseWhitelistMembership | popup.js:132-135 | the entries are exactly the non-empty trims of the comma-separated pieces |
| Validation.ParseWhitelistJoin | popup.js:132-135 | a list of clean entries written comma-separated parses back to itself |
| Options.FocusGuardOptions.constructor | options.js:4-7 | the challenge string starts empty |
| Options.FocusGuardOptions.HandleAddBlocked | options.js:87-137 | refusals change nothing; a normal add appends exactly one `{url, normal}` entry; a strict add with a missing or non-positive amount is refused before the list changes; otherwise it appends `{url, strict}` and sends the duration in milliseconds; the list stays free of duplicates |
| Options.FocusGuardOptions.HandleRemoveBlocked | options.js:139-158 | removing a site whose strict block is in force is refused with no change; otherwise every entry with that url is dropped and the rest keep their order |
| Options.FocusGuardOptions.HandleAddWhitelist | options.js:160-181 | empty input and duplicates are refused with no change; otherwise the cleaned url is appended |
| Options.FocusGuardOptions.HandleRemoveWhitelist | options.js:183-188 | every entry equal to the url is removed, and nothing else |
| Options.FocusGuardOptions.HandleStartFocusSession | options.js:190-217 | a missing or sub-5-minute duration is refused, then an empty stored whitelist; otherwise minutes × 60000 is sent with the stored whitelist |
| Options.FocusGuardOptions.HandleGenerateChallenge | options.js:223-241 | the loop stores exactly the 35 drawn characters |
| Options.FocusGuardOptions.HandleVerifyChallenge | options.js:243-260 | the settings unlock exactly when the typed text equals the challenge string; otherwise storage is unchanged |
| Popup.FocusGuardPopup.HandleAddQuickBlock | popup.js:51-119 | the same refusals as the options page, with no change; a normal add appends one entry; a strict amount that is missing or non-positive is refused before the list changes; otherwise the site is appended and amount × unit is sent in milliseconds |
| Popup.FocusGuardPopup.HandleEndFocus | popup.js:148-150 | the button only explains itself and changes no state |
| Popup.StartFocus | popup.js:121-146 | refused exactly when the trimmed text is empty or the minutes are missing or zero; otherwise sends minutes × 60000 with the parsed whitelist |
| Popup.CommaIsTrimmed | popup.js:122-124 | a lone comma survives trimming, so it passes the emptiness check |
| Popup.CommaOnlyWhitelistIsEmpty | popup.js:132-135 | a text holding only a comma parses to no entries |
| Popup.BlankPiecesStartEmpty | popup.js:127-142 | filled-in text whose pieces are all blank starts a session with an empty whitelist |
| Popup.StartFocusSkipsOptionsChecks | popup.js:127-142 | the popup sends what the options page refuses: a session under five minutes with an empty whitelist |
| Popup.SetPassword | popup.js:172-179 | a cancelled prompt does nothing; a password under four characters is refused and nothing is sent; any other password is sent unchanged |

## Left out

- The DOM and the UI are left out: rendered markup, `alert`/`prompt`, button and CSS toggling, the list displays, and the listeners that block pasting. The settings handlers return an `Outcome` instead: refused with a reason, accepted with the message they would send, or cancelled.
- Chrome's own behaviour is left out: `chrome.storage`, `chrome.alarms`, `chrome.declarativeNetRequest`, `runtime.sendMessage` and `getURL`. They are state (`LocalStore`, the alarm map, the installed list) or return values. No alarm fires by itself, and the rules are not matched against urls.
- `background.js` has no message handler for `addStrictBlock`, `startFocusSession` or `setMasterPassword`. The settings pages' messages are returned, and the background handlers are called directly.
- Incognito handling (`handleWindowCreated`, `monitorIncognito`) and tab redirection (`handleTabUpdate`) are left out; they are browser I/O.
- The IndexedDB backup is an input to `CheckStrictTimers`. `storeInIndexedDB` and `getFromIndexedDB` are I/O.
- `init` is left out apart from its defaults (`DefaultSnapshot`). The `ruleIdCounter` field the constructor sets (background.js:5) is never read, so it is not modelled.
- `MutationObserver`, `setTimeout` and the 5-minute reset of `disableUnlocked` are left out; they are timing. `Math.random` is left out: the drawn string is an input.
- Temporary unblocks, the master-password encoding and the priority-10 allow rules are not part of this model.
- Reads and writes of storage from different contexts may interleave. The model treats each handler as atomic, with one `now` per handler; the source calls `new Date()` more than once.
- `Date` values and ISO strings are integer milliseconds. The one place where a computed time can leave the range a `Date` holds (±8.64e15 ms) is an expiry, and `AddStrictBlock` and `StartFocusSession` model the `RangeError` that follows; `new Date()` itself is assumed to be in range. `parseInt` yields `Option<int>`, where `None` stands for NaN, and IEEE doubles are not modelled. `encodeURIComponent` is left out: the site in a redirect target is kept as a plain string.
- Strings are sequences of characters; UTF-16 code units and Unicode case are not modelled. `new URL(...)` is a hostname supplied by the caller (`None` when it throws).
- JavaScript enumerates integer-like object keys before other keys; the model uses plain insertion order. Inherited keys such as `constructor` are not modelled.
- Rules.StrictRules: tests `url in strict` before reading the entry. A key from `Object.entries` always has a value, so the test always passes.
- Validation.StrictDurationMs: the options page has no minutes branch, so a strict duration in minutes counts as hours. The model states this as the source has it.
- Background.ChangedKeys: states only that the changed keys are snapshot keys. Its partner `UntriggeredChangeKeepsRules` states what a change that does not trigger recompilation preserves.
- Background.StartSession: its own contract states only well-formedness. What it does is stated by `StartActiveFlags`, `StartActiveList`, `StartLeavesOneActive` and `StartedSessionCompiles`.
- Background.MergeLive: its own contract states only well-formedness. What it does is stated by `MergeLiveEntries`.
