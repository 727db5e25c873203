# On-call swap negotiation, modelled in Dafny

This project models the swap negotiation core of `oncall-swaps`. In that
system, a requester offers to give away one on-call shift, called the let
window, in exchange for coverage on one of several search windows. Other
participants can answer in two ways:

- a **direct swap**: take the let window and give back exactly one search
  window;
- a **ring contribution**: cover some outstanding need and ask for windows of
  their own. Contributions accumulate until every remaining need is a search
  window. The requester then closes a **ring swap** of at least three legs
  with pairwise distinct coverers.

Every completed swap is written back to Opsgenie as schedule overrides. Slack
is told about each step.

The model has these parts:

- `time.dfy` models datetimes: a wall clock in microseconds plus an optional
  UTC offset. It defines Python's datetime equality and arithmetic on the UTC
  line.
- `text.dfy` models ASCII lower-casing.
- `errors.dfy` turns each exception of the core into a value.
- `models.dfy` holds the domain aggregate:
  - `TimeWindow`, a subset type, and its validator;
  - the `RingSwap` check;
  - `SwapOffer`, a class with a field for each piece of dynamic state and a
    method for each mutator.

  Each mutator is proved equal to a pure transition on the `OfferView`
  snapshot. A consistency invariant is proved about those transitions.
- `negotiation.dfy` states the engine's rules as pure functions on snapshots:
  - `IsDirectSwap`;
  - ring closure (`TryCompleteRing`, `FinalizeRing`);
  - one response (`Respond`, `Accept`);
  - the schedule partition and the filter.

  It also holds the lemmas about outcomes and the repository's scenarios.
- `services.dfy` holds `SwapNegotiationService`. Each of its methods is proved
  to have the effect that the pure rules give: on the offer, on the
  repository, on the override log and on the notice log.
- `opsgenie_mock.dfy` models `MockOpsgenieClient`. Its two slot loops and its
  override overlay are proved against a recursive rotation function.
- `directory.dfy`, `persistence.dfy` and `slack_tokens.dfy` model the three
  in-memory tables.
- `opsgenie_port.dfy`, `slack_port.dfy` and `wrappers.dfy` hold the port
  value types, the Slack logs, and `Option`/`Result`.

Exceptions become `Failure` results. A method that fails keeps the state
changes made before the point where the source raises, as the source does.
The clocks, `uuid4` ids and `now` are parameters.

Four behaviours of the code are easy to miss. Each is proved as a lemma:

- An active offer can lose the need it created for itself. When someone
  covers the let window, `accept_cover` resolves that need at once, and the
  offer stays active (`Negotiation.LetCoveredFirst`).
- `available_windows` can repeat an interval. It starts as a copy of the
  search windows, which nothing deduplicates
  (`Negotiation.AvailableMayRepeat`). A window that `add_available_windows`
  appends is never already present, whatever the list held before
  (`Models.AddAvailableNeverReadds`).
- A direct swap that arrives while a ring is half built simply wins.
  `record_direct_swap` clears every need and commitment, and only the two
  direct overrides are written (`Negotiation.DirectSwapAfterPartialRing`).
- The closing guard of `_finalize_ring` counts distinct coverers (`< 3`),
  but the `RingSwap` validator needs them pairwise distinct. So a ring
  attempt can fail with an error instead of waiting
  (`Negotiation.RepeatedCovererFails`).

`create_offer` also raises after it has stored and announced the offer,
whenever both Slack ports are configured and someone other than the
requester is on call over the offer's horizon.
`_prompt_initial_participants` calls `prompt_cover_request` with four
arguments. The port (`src/oncall_swap/ports/slack.py:31-38`) and its only
implementation in the repository (`tests/test_ring_swap.py:54-61`) declare a
fifth, `need_owner`, so Python raises `TypeError`. The model returns
`PromptArgumentMissing` there (`Services.PromptError`,
`Services.SwapNegotiationService.CreateOffer`). The repository's ring-swap
test reaches this case at its `create_offer` call
(`Services.RingTestCreateRaises`).

## Model

In the source column:

- M is `out/production/oncall-swaps/oncall_swap/domain/models.py`;
- S is `src/oncall_swap/application/services.py`;
- the other files are written out.

| member | source | states |
|---|---|---|
| Time.Shift | out/production/oncall-swaps/oncall_swap/adapters/opsgenie/mock.py:43-50 | adding a timedelta moves the instant by exactly that amount and keeps the offset |
| Time.SameMomentIsEquivalence | out/production/oncall-swaps/oncall_swap/domain/models.py:43-44 | datetime equality, used by `to_tuple` comparisons, is reflexive, symmetric and transitive |
| Time.NaiveNeverEqualsAware | out/production/oncall-swaps/oncall_swap/domain/models.py:43-44 | a naive datetime never equals an aware one |
| Text.Lower | out/production/oncall-swaps/oncall_swap/infrastructure/directory/in_memory.py:16 | lower-casing keeps the length and maps each character on its own |
| Text.LowerCharIdempotent | out/production/oncall-swaps/oncall_swap/infrastructure/directory/in_memory.py:16 | lower-casing a character twice is lower-casing it once |
| Text.LowerIdempotent | out/production/oncall-swaps/oncall_swap/infrastructure/directory/in_memory.py:19-20 | a normalised email key is unchanged by normalising it again |
| Text.LowerIgnoresCase | out/production/oncall-swaps/oncall_swap/infrastructure/directory/in_memory.py:16 | strings equal up to case have the same lower-case form |
| Models.MakeWindow | out/production/oncall-swaps/oncall_swap/domain/models.py:23-27 | a window is built exactly when its end is after its start; otherwise the validator's error, carrying both bounds |
| Models.ToWindows | src/oncall_swap/application/services.py:74 | the windows come back in order exactly when every one is non-empty; otherwise the error is that of the first empty one |
| Models.Duration | out/production/oncall-swaps/oncall_swap/domain/models.py:29-30 | every constructed window has a positive duration |
| Models.Intersection | out/production/oncall-swaps/oncall_swap/domain/models.py:38-41 | None exactly when the windows do not overlap; otherwise `[max start, min end)`, which holds exactly the instants in both |
| Models.OverlapsSymmetric | out/production/oncall-swaps/oncall_swap/domain/models.py:32-33 | overlap is symmetric |
| Models.OverlapsStrict | out/production/oncall-swaps/oncall_swap/domain/models.py:32-33 | windows that only touch do not overlap; a window overlaps itself |
| Models.ContainsHalfOpen | out/production/oncall-swaps/oncall_swap/domain/models.py:35-36 | `contains` holds at the start and not at the end |
| Models.CovererIdsCons | out/production/oncall-swaps/oncall_swap/domain/models.py:103 | the coverer-id set of a non-empty list is the first coverer's id plus the set of the rest |
| Models.DistinctCoverersCons | out/production/oncall-swaps/oncall_swap/domain/models.py:103-104 | a list has pairwise distinct coverers exactly when its tail does and the first coverer is not in the tail |
| Models.CovererIdsCount | out/production/oncall-swaps/oncall_swap/domain/models.py:103-104 | the set of coverer ids is never larger than the list, and equals its size exactly when the coverers are pairwise distinct |
| Models.NewRingSwap | out/production/oncall-swaps/oncall_swap/domain/models.py:98-106 | a ring is built exactly when it has at least three legs with pairwise distinct coverers; otherwise the short-ring error, then the uniqueness error |
| Models.MatchingNeed | out/production/oncall-swaps/oncall_swap/domain/models.py:140-144 | None exactly when no need has the interval; otherwise the first need that has it |
| Models.WithoutInterval | out/production/oncall-swaps/oncall_swap/domain/models.py:149-151 | keeps exactly the needs whose interval differs |
| Models.WithoutIntervalAppend | out/production/oncall-swaps/oncall_swap/domain/models.py:149-151 | the filter keeps the order of the remaining needs |
| Models.WithoutIntervalNoMatch | out/production/oncall-swaps/oncall_swap/domain/models.py:146-152 | with no match the needs are unchanged |
| Models.AddAvailableKeepsPrefix | out/production/oncall-swaps/oncall_swap/domain/models.py:135-138 | the existing windows stay, in order, as a prefix |
| Models.AddAvailableContents | out/production/oncall-swaps/oncall_swap/domain/models.py:135-138 | every added interval is present afterwards, and nothing appears that was in neither input |
| Models.AddAvailableNeverReadds | out/production/oncall-swaps/oncall_swap/domain/models.py:135-138 | on any list, even one that repeats an interval, no window the call appends has an interval already present before it |
| Models.AddAvailableKeepsNoDuplicates | out/production/oncall-swaps/oncall_swap/domain/models.py:135-138 | a list without repeated intervals still has none afterwards |
| Models.AddAvailableAbsorbs | out/production/oncall-swaps/oncall_swap/domain/models.py:135-138 | adding intervals that are all present changes nothing |
| Models.AddAvailableIdempotent | out/production/oncall-swaps/oncall_swap/domain/models.py:135-138 | adding the same windows twice is adding them once |
| Models.FreshOffer | out/production/oncall-swaps/oncall_swap/domain/models.py:118-133 | a new offer is active, its available windows are the search windows, it has one need (requester, let window, created by the offer) and no history |
| Models.NeedsResolvedNoMatch | out/production/oncall-swaps/oncall_swap/domain/models.py:146-152 | resolving an interval that nobody needs leaves the offer as it was |
| Models.FreshConsistent | out/production/oncall-swaps/oncall_swap/domain/models.py:109-133 | a new offer satisfies the consistency invariant |
| Models.TransitionsKeepConsistent | out/production/oncall-swaps/oncall_swap/domain/models.py:146-187 | each mutator keeps an active offer consistent; the two record-swap mutators fulfil it and the others keep it active |
| Models.CancelKeepsConsistent | out/production/oncall-swaps/oncall_swap/domain/models.py:192-193 | cancelling keeps the invariant |
| Models.TransitionsKeepAvailableUnique | out/production/oncall-swaps/oncall_swap/domain/models.py:171-179 | adding needs and recording a ring candidate keep available windows without repeated intervals |
| Models.TransitionsNeverReaddAvailable | out/production/oncall-swaps/oncall_swap/domain/models.py:171-179 | on any offer, those two mutators keep the old available windows as a prefix and append only intervals not already present |
| Models.EnsureFuture | out/production/oncall-swaps/oncall_swap/domain/models.py:221-228 | a window fails exactly when it starts strictly before the instant; the error carries the label, the start and the instant |
| Models.EnsureFutureReadsNaiveAsUtc | out/production/oncall-swaps/oncall_swap/domain/models.py:223-225 | a naive start is compared as UTC wall time, an aware one through its offset, and a start equal to the instant passes |
| Models.FirstPastSearch | out/production/oncall-swaps/oncall_swap/domain/models.py:212-213 | no error exactly when every search window starts at or after now; otherwise the first one that does not |
| Models.PastWindowError | out/production/oncall-swaps/oncall_swap/domain/models.py:210-213 | no error exactly when every window starts at or after now; the let window is checked first |
| Models.SwapOffer.constructor | out/production/oncall-swaps/oncall_swap/domain/models.py:128-133 | empty available windows become the search windows; empty needs become the offer's need for the let window |
| Models.SwapOffer.AddAvailableWindows | out/production/oncall-swaps/oncall_swap/domain/models.py:135-138 | the loop leaves the available windows `AddAvailable` gives, and nothing else changes |
| Models.SwapOffer.FindNeed | out/production/oncall-swaps/oncall_swap/domain/models.py:140-144 | returns the first need with exactly that interval, or None |
| Models.SwapOffer.ResolveNeed | out/production/oncall-swaps/oncall_swap/domain/models.py:146-152 | returns the first matching need and removes every need with that interval; with no match, nothing changes |
| Models.SwapOffer.AddCommitment | out/production/oncall-swaps/oncall_swap/domain/models.py:154-161 | appends exactly the commitment from the coverer to the need's owner for its window; nothing else changes |
| Models.SwapOffer.RecordDirectSwap | out/production/oncall-swaps/oncall_swap/domain/models.py:163-169 | appends the swap, fulfils the offer, and empties the needs and the commitments |
| Models.SwapOffer.RecordRingCandidate | out/production/oncall-swaps/oncall_swap/domain/models.py:171-180 | appends the candidate, folds its windows into the available ones, and adds one need per window, owned by the participant and not created by the offer |
| Models.SwapOffer.RecordRingSwap | out/production/oncall-swaps/oncall_swap/domain/models.py:182-187 | appends the ring, fulfils the offer, and empties the needs and the commitments |
| Models.SwapOffer.Cancel | out/production/oncall-swaps/oncall_swap/domain/models.py:192-193 | only the status changes, to cancelled |
| Models.SwapOffer.Create | out/production/oncall-swaps/oncall_swap/domain/models.py:200-219 | fails exactly when some window starts before now, with the first such error; otherwise a fresh offer in its initial state |
| OpsgenieMock.MockRoster | out/production/oncall-swaps/oncall_swap/adapters/opsgenie/mock.py:29-33 | five participants: `s+1@sloc.de` to `s+4@sloc.de`, then `sebastian@nextpacket.net` |
| OpsgenieMock.SlotStart | out/production/oncall-swaps/oncall_swap/adapters/opsgenie/mock.py:40-44 | slot k starts k rotations after the base start |
| OpsgenieMock.SlotStartNext | out/production/oncall-swaps/oncall_swap/adapters/opsgenie/mock.py:50-59 | the end of slot k is the start of slot k+1 |
| OpsgenieMock.Slot | out/production/oncall-swaps/oncall_swap/adapters/opsgenie/mock.py:50-57 | slot k starts at base plus k rotations and lasts exactly one rotation |
| OpsgenieMock.FirstSlot | out/production/oncall-swaps/oncall_swap/adapters/opsgenie/mock.py:40-44 | the back-off ends at the latest non-positive slot that starts at or before `start` |
| OpsgenieMock.FirstSlotUnique | out/production/oncall-swaps/oncall_swap/adapters/opsgenie/mock.py:40-44 | that slot is the only one with the back-off loop's exit condition |
| OpsgenieMock.RotationStep | out/production/oncall-swaps/oncall_swap/adapters/opsgenie/mock.py:49-60 | one pass of the forward loop emits the slot when it ends after `start`, then continues with the next slot |
| OpsgenieMock.OverridesWithin | out/production/oncall-swaps/oncall_swap/adapters/opsgenie/mock.py:63-65 | exactly the overrides that overlap the range |
| OpsgenieMock.OverridesWithinAppend | out/production/oncall-swaps/oncall_swap/adapters/opsgenie/mock.py:63-65 | the overlay distributes over concatenation, so it keeps the order in which overrides were applied |
| OpsgenieMock.OverridesWithinSingle | out/production/oncall-swaps/oncall_swap/adapters/opsgenie/mock.py:64-65 | one override appears once when it overlaps the range and not at all otherwise; with the append lemma, each application appears exactly once, in order |
| OpsgenieMock.RotationSound | out/production/oncall-swaps/oncall_swap/adapters/opsgenie/mock.py:49-60 | every emitted slot lasts one rotation, overlaps the range, and is a slot of the rotation |
| OpsgenieMock.RotationComplete | out/production/oncall-swaps/oncall_swap/adapters/opsgenie/mock.py:49-60 | every later slot that overlaps the range is emitted |
| OpsgenieMock.RotationContiguous | out/production/oncall-swaps/oncall_swap/adapters/opsgenie/mock.py:50-59 | successive emitted slots are contiguous |
| OpsgenieMock.EarlierSlotsEndBeforeStart | out/production/oncall-swaps/oncall_swap/adapters/opsgenie/mock.py:40-44 | slots before the back-off point end at or before `start`, so none is missed |
| OpsgenieMock.RotationExact | out/production/oncall-swaps/oncall_swap/adapters/opsgenie/mock.py:40-60 | a slot is listed exactly when it overlaps `[start, end)` |
| OpsgenieMock.RosterCycles | out/production/oncall-swaps/oncall_swap/adapters/opsgenie/mock.py:51 | slot k is held by `participants[k mod 5]`, with the non-negative modulus, so slot -1 goes to the last participant |
| OpsgenieMock.MockOpsgenieClient.constructor | out/production/oncall-swaps/oncall_swap/adapters/opsgenie/mock.py:24-34 | a rotation of `rotation_hours` hours, the five mock participants, and no overrides |
| OpsgenieMock.MockOpsgenieClient.ListOnCall | out/production/oncall-swaps/oncall_swap/adapters/opsgenie/mock.py:36-67 | both while loops and the overlay produce the rotation slots from the back-off point, then the overlapping overrides |
| OpsgenieMock.MockOpsgenieClient.ApplyOverride | out/production/oncall-swaps/oncall_swap/adapters/opsgenie/mock.py:69-70 | appends exactly one override; nothing else changes |
| OpsgenieMock.MockOpsgenieClient.ApplyOverrides | src/oncall_swap/ports/opsgenie.py:29-31 | one `apply_override` per assignment, in order: the log grows by exactly the assignments |
| SlackPort.SlackLog.Post | src/oncall_swap/ports/slack.py:9-25 | each notification call appends exactly one notice to the log |
| Directory.LookupEmail | out/production/oncall-swaps/oncall_swap/infrastructure/directory/in_memory.py:15-16 | a hit exactly when the lower-cased email is a key, and then that entry |
| Directory.LookupIgnoresCase | out/production/oncall-swaps/oncall_swap/infrastructure/directory/in_memory.py:15-16 | emails equal up to case find the same participant |
| Directory.LookupMissing | out/production/oncall-swaps/oncall_swap/infrastructure/directory/in_memory.py:16 | an email never stored finds nothing |
| Directory.UpsertThenLookup | out/production/oncall-swaps/oncall_swap/infrastructure/directory/in_memory.py:15-22 | after an upsert, any email equal up to case finds the new participant; other emails find what they found before |
| Directory.EnsuredParticipant | src/oncall_swap/application/services.py:213-218 | the participant already known for the email, or a new one with that email, the fresh id, and no Slack or Opsgenie ids |
| Directory.EnsuredIds | src/oncall_swap/application/services.py:213-218 | a known email leaves the id index alone; otherwise the new participant is indexed under the fresh id and every other id is unchanged |
| Directory.EnsureParticipantTwice | src/oncall_swap/application/services.py:213-218 | ensuring twice gives the same participant and stores nothing more |
| Directory.EnsuredIgnoresCase | src/oncall_swap/application/services.py:213-218 | after ensuring, any spelling of the email up to case finds the ensured participant |
| Directory.InMemoryParticipantDirectory.constructor | out/production/oncall-swaps/oncall_swap/infrastructure/directory/in_memory.py:11-13 | both indexes start empty |
| Directory.InMemoryParticipantDirectory.GetByEmail | out/production/oncall-swaps/oncall_swap/infrastructure/directory/in_memory.py:15-16 | a case-insensitive lookup; a hit has that email up to case |
| Directory.InMemoryParticipantDirectory.Upsert | out/production/oncall-swaps/oncall_swap/infrastructure/directory/in_memory.py:18-22 | returns its argument and indexes it under its lower-cased email and its id; an old id entry for the same email stays |
| Persistence.InMemoryOfferRepository.constructor | src/oncall_swap/infrastructure/persistence/in_memory.py:11-12 | storage starts empty |
| Persistence.InMemoryOfferRepository.Add | src/oncall_swap/infrastructure/persistence/in_memory.py:14-15 | stores the offer under its id, replacing any earlier entry; other ids are untouched |
| Persistence.InMemoryOfferRepository.Get | src/oncall_swap/infrastructure/persistence/in_memory.py:17-18 | the stored offer, or null for an id never stored |
| Persistence.InMemoryOfferRepository.Update | src/oncall_swap/infrastructure/persistence/in_memory.py:20-21 | the same write as `add` |
| Persistence.StoreThenGet | src/oncall_swap/infrastructure/persistence/in_memory.py:14-21 | after storing, the id finds the offer and every other id finds what it found before |
| SlackTokens.Saved | src/oncall_swap/infrastructure/slack_tokens/in_memory.py:22-25 | stored under the team id only when that is non-empty; every other entry is unchanged |
| SlackTokens.NewInstallation | src/oncall_swap/infrastructure/slack_tokens/in_memory.py:65-72 | the bot id and the bot user id are both the given user id; the user token is set only when the access token is truthy |
| SlackTokens.SaveInstallationThenGet | src/oncall_swap/infrastructure/slack_tokens/in_memory.py:57-88 | after saving with a non-empty team, the getters return the bot token, the bot user id and the access token; with an empty team nothing is stored |
| SlackTokens.GettersOfAbsentTeam | src/oncall_swap/infrastructure/slack_tokens/in_memory.py:75-88 | the getters return None for a team never saved |
| SlackTokens.InMemorySlackTokenStorage.constructor | src/oncall_swap/infrastructure/slack_tokens/in_memory.py:18-19 | no installations |
| SlackTokens.InMemorySlackTokenStorage.Save | src/oncall_swap/infrastructure/slack_tokens/in_memory.py:22-25 | the map becomes `Saved` of the old map |
| SlackTokens.InMemorySlackTokenStorage.FindInstallation | src/oncall_swap/infrastructure/slack_tokens/in_memory.py:27-38 | the entry for a truthy, stored team id; otherwise None |
| SlackTokens.InMemorySlackTokenStorage.DeleteBot | src/oncall_swap/infrastructure/slack_tokens/in_memory.py:40-43 | removes only the given team's entry, when a truthy team id is given |
| SlackTokens.InMemorySlackTokenStorage.DeleteInstallation | src/oncall_swap/infrastructure/slack_tokens/in_memory.py:45-54 | the same rule as `delete_bot` |
| SlackTokens.InMemorySlackTokenStorage.SaveInstallation | src/oncall_swap/infrastructure/slack_tokens/in_memory.py:57-73 | saves `NewInstallation` of the arguments |
| SlackTokens.InMemorySlackTokenStorage.GetBotToken | src/oncall_swap/infrastructure/slack_tokens/in_memory.py:75-78 | the stored bot token, or None |
| SlackTokens.InMemorySlackTokenStorage.GetBotUserId | src/oncall_swap/infrastructure/slack_tokens/in_memory.py:80-83 | the stored bot user id, or None |
| SlackTokens.InMemorySlackTokenStorage.GetAccessToken | src/oncall_swap/infrastructure/slack_tokens/in_memory.py:85-88 | the stored user token, or None |
| SlackTokens.InMemorySlackTokenStorage.RemoveInstallation | src/oncall_swap/infrastructure/slack_tokens/in_memory.py:90-92 | removes only that team's entry; removing an absent team changes nothing |
| Negotiation.IsDirectSwap | src/oncall_swap/application/services.py:200-205 | true exactly when the covered window equals the let window, exactly one window is needed, and it equals some search window |
| Negotiation.ClosableNeeds | src/oncall_swap/application/services.py:172-174 | exactly the needs for a search window |
| Negotiation.ClosableNeedsAll | src/oncall_swap/application/services.py:175-179 | the filter drops nothing exactly when every need is for a search window, and then it is the identity |
| Negotiation.FinalCommitments | src/oncall_swap/application/services.py:181-188 | one leg per need, in order: the requester covers the need's window for its owner |
| Negotiation.FinalizeRing | src/oncall_swap/application/services.py:191-198 | no ring below three legs or three distinct coverers; a ring of all the legs exactly when there are at least three legs with pairwise distinct coverers; otherwise the uniqueness error |
| Negotiation.TryCompleteRing | src/oncall_swap/application/services.py:164-189 | a ring exactly when there are partial commitments, every need is for a search window, and the closing legs are at least three with distinct coverers; the error exactly when at least three coverers are distinct but one repeats |
| Negotiation.NoRingCases | src/oncall_swap/application/services.py:165-179 | no commitments, or a need that no search window closes, gives no ring and no error |
| Negotiation.DirectOverrides | src/oncall_swap/application/services.py:157-162 | two overrides, in order: the responder takes the let window, then the requester takes the traded window |
| Negotiation.RingOverrides | src/oncall_swap/application/services.py:105-108 | one override per leg, in leg order: the coverer takes the leg's window |
| Negotiation.DirectPath | src/oncall_swap/application/services.py:77-83 | the offer is fulfilled with the swap and nothing outstanding, the two overrides are logged in order, and the swap is returned unless the Slack ports are missing |
| Negotiation.NoMatchingNeedPath | src/oncall_swap/application/services.py:85-87 | a response for an interval nobody needs fails and changes nothing |
| Negotiation.ContributionEffect | src/oncall_swap/application/services.py:85-99 | the covered need goes, one commitment (responder to former owner) is added, one need per requested window is added with those windows made available, and the status stays |
| Negotiation.PendingPath | src/oncall_swap/application/services.py:115-118 | a contribution that closes no ring returns no swap, logs no override, and keeps the status |
| Negotiation.RingPath | src/oncall_swap/application/services.py:104-113 | a closing contribution fulfils the offer with the ring of the closing legs and logs one override per leg, in order |
| Negotiation.OverridesIffFulfilled | src/oncall_swap/application/services.py:76-118 | on an active offer, overrides are logged exactly when the offer is fulfilled; with the Slack ports configured a fulfilled offer returns its swap; a pending result leaves the offer active |
| Negotiation.RespondKeepsConsistent | src/oncall_swap/application/services.py:76-118 | a response keeps an active, consistent offer consistent |
| Negotiation.SettledOnce | src/oncall_swap/application/services.py:68-70 | once an offer is not active, every further response is refused with `OfferNotActive` and changes nothing |
| Negotiation.InvalidWindowRefused | src/oncall_swap/application/services.py:72-74 | an empty window is reported, the covered one first, and leaves the offer, the overrides and the notices alone |
| Negotiation.AcceptKeepsConsistent | src/oncall_swap/application/services.py:67-118 | any response keeps a consistent offer consistent |
| Negotiation.LetCoveredFirst | src/oncall_swap/application/services.py:85-102 | covering the let window of a new offer removes the offer's own need, while the offer stays active and the ring stays open |
| Negotiation.ThreePartyRing | tests/test_ring_swap.py:115-138 | the test's two responses and its assertions, starting from a fresh offer: the second response closes a three-leg ring, fulfils the offer, logs the three overrides, and notifies the completion once. The test itself does not get there, because its `create_offer` at line 113 raises (`Services.RingTestCreateRaises`) |
| Negotiation.DirectSwapAfterPartialRing | src/oncall_swap/application/services.py:77-83 | a direct swap after a half-built ring clears its commitment and need and logs just the two direct overrides |
| Negotiation.RepeatedCovererFails | src/oncall_swap/application/services.py:191-198 | a ring whose requester would cover twice passes the guard but fails validation; the offer keeps the commitment and stays active |
| Negotiation.AvailableMayRepeat | out/production/oncall-swaps/oncall_swap/domain/models.py:130-131 | repeated search windows give repeated available windows |
| Negotiation.WindowsOf | src/oncall_swap/application/services.py:233-238 | exactly the windows of assignments whose email equals the target up to case |
| Negotiation.WindowsOfAppend | src/oncall_swap/application/services.py:234-238 | the filter keeps port order |
| Negotiation.WindowsOfIgnoresCase | src/oncall_swap/application/services.py:233 | any spelling of the target email up to case gives the same windows |
| Negotiation.SearchHolders | src/oncall_swap/application/services.py:131-139 | exactly the holders, other than the requester, of an assignment for a search window |
| Negotiation.OtherHolders | src/oncall_swap/application/services.py:131-139 | exactly the holders, other than the requester, of any other assignment |
| Negotiation.RequesterHeld | src/oncall_swap/application/services.py:134-135 | the skipped assignments are exactly the requester's |
| Negotiation.PartitionCounts | src/oncall_swap/application/services.py:133-139 | every assignment not held by the requester lands in exactly one of the two lists |
| Negotiation.EarliestStart | src/oncall_swap/application/services.py:123 | the horizon starts at the earliest start among the let and search windows, and that start is one of them |
| Negotiation.LatestEnd | src/oncall_swap/application/services.py:124 | the horizon ends at the latest end among the let and search windows, and that end is one of them |
| Services.HorizonStart | src/oncall_swap/application/services.py:230 | the same instant as `now`, as a UTC datetime |
| Services.HorizonEnd | src/oncall_swap/application/services.py:231 | `horizon_days` days after the start |
| Services.PromptError | src/oncall_swap/application/services.py:141-155 | with both Slack ports configured, the prompts raise exactly when either holder list is non-empty, because each call leaves out `need_owner` |
| Services.PromptsRaiseIffOthersOnCall | src/oncall_swap/application/services.py:131-155 | the prompts raise exactly when some assignment on the horizon is held by someone other than the requester |
| Services.RingTestCreateRaises | tests/test_ring_swap.py:90-113 | with the test's schedule, where `p4` holds the search window, `create_offer` raises in the prompts |
| Services.CreateError | src/oncall_swap/application/services.py:49-62 | creation fails exactly when a window is empty, a window starts before now, or the Slack ports are missing, in that order |
| Services.SwapNegotiationService.constructor | src/oncall_swap/application/services.py:33-47 | the service keeps the ports it is given |
| Services.SwapNegotiationService.GetOffer | src/oncall_swap/application/services.py:207-211 | the stored offer with that id, or `OfferNotFound` exactly when none is stored |
| Services.SwapNegotiationService.EnsureParticipant | src/oncall_swap/application/services.py:213-218 | returns `EnsuredParticipant`; both indexes become `EnsuredEmails` and `EnsuredIds`: a new participant is indexed under its email and its id, and a known one changes nothing |
| Services.SwapNegotiationService.ApplyDirectOverride | src/oncall_swap/application/services.py:157-162 | the override log grows by the two direct overrides |
| Services.SwapNegotiationService.FinalizeRing | src/oncall_swap/application/services.py:191-198 | returns `Negotiation.FinalizeRing`, and records the ring on the offer when there is one |
| Services.SwapNegotiationService.TryCompleteRing | src/oncall_swap/application/services.py:164-189 | returns `Negotiation.TryCompleteRing` of the offer, and records the ring when there is one; otherwise the offer is unchanged |
| Services.SwapNegotiationService.PartitionCandidates | src/oncall_swap/application/services.py:122-141 | the loop yields `SearchHolders` and `OtherHolders` of the schedule over the horizon; the Slack ports are then required |
| Services.SwapNegotiationService.GetUpcomingWindows | src/oncall_swap/application/services.py:220-238 | the participant's windows, ignoring case, in the schedule from `now` over `horizon_days` days |
| Services.SwapNegotiationService.Negotiate | src/oncall_swap/application/services.py:76-118 | result, offer, overrides and notices are those of `Respond`; the repository keeps its entries |
| Services.SwapNegotiationService.SettleDirect | src/oncall_swap/application/services.py:77-83 | the effect of `DirectResponse` on the offer, the overrides and the notices |
| Services.SwapNegotiationService.RespondToNeed | src/oncall_swap/application/services.py:85-118 | the effect of `ContributionResponse` on the offer, the overrides and the notices |
| Services.SwapNegotiationService.ApplyContribution | src/oncall_swap/application/services.py:85-99 | returns the matching need; with none nothing changes, otherwise the offer becomes `Contribute` of it |
| Services.SwapNegotiationService.CloseAfterCandidate | src/oncall_swap/application/services.py:97-118 | the ring-candidate notice is posted first, then the effect of `CloseRing` on the offer, the overrides and the notices |
| Services.SwapNegotiationService.CompleteOrUpdate | src/oncall_swap/application/services.py:101-118 | the effect of `CloseRing` on the offer, the overrides and the notices |
| Services.SwapNegotiationService.AcceptCover | src/oncall_swap/application/services.py:67-118 | an unknown id is refused and changes nothing, the directory included; otherwise the participant is ensured only for an active offer, so both directory indexes become `EnsuredEmails`/`EnsuredIds` then and stay unchanged otherwise, and the effect is `Accept`'s; other offers are untouched |
| Services.SwapNegotiationService.CreateOffer | src/oncall_swap/application/services.py:49-65 | the requester is ensured first, in both directory indexes; it fails as `CreateError` says; a validated offer is stored fresh in its initial state and announced only when the Slack ports are configured; with them configured it then fails with `PromptArgumentMissing` exactly when `PromptError` says, and succeeds otherwise |

## Left out

- Lower-casing covers ASCII only. Python's Unicode `str.lower` is outside the model.
- Python raises `TypeError` when it orders a naive datetime against an aware one. The model compares every instant on the UTC line, reading naive values as UTC. Equality does follow Python: a naive value never equals an aware one.
- Time zones are fixed UTC offsets per value. Daylight-saving rules and `zoneinfo` are not modelled.
- `get_upcoming_windows` applies `astimezone` to `now`, which reads a naive `now` in the host's local zone. The model reads a naive `now` as UTC. The defaults (30 days, the current clock) are the caller's.
- Ids drawn from `uuid4` and instants drawn from the clock are parameters: `freshId`, `offerId`, `participantId`, `now` and `createdAt`. Ids are naturals.
- `Instant` normalisation (`src/oncall_swap/domain/time.py`) is not modelled. `now` is already a UTC instant.
- `_prompt_initial_participants` calls `prompt_cover_request` with four arguments, while the port and the repository's only implementation of it declare a fifth, `need_owner`. The model gives that call its effect in Python: the first prompt raises, and `create_offer` fails with `PromptArgumentMissing` after it has stored and announced the offer. What a prompt would send if it were called correctly is not modelled.
- The Slack bot adapter (`src/oncall_swap/adapters/slack/bot.py`) is not part of this model. Neither are the HTTP Opsgenie client, the file-backed token store and the bootstrap in `main.py`. The notification port is a log of the calls made on it, each with a snapshot of the offer.
- OpsgenieMock.MockOpsgenieClient.constructor: requires `rotation_hours > 0`. With zero or negative hours the source's slot loops may not terminate, for example whenever `base_start > start`. The default `base_start`, today at 09:00 from the clock, is a parameter, and so are the five participant ids.
- The service is modelled with the Opsgenie mock as its schedule and override ports, as `main.py` wires it. Other implementations of those ports are not modelled.
- Only five fields of a Slack `Installation` are modelled: the team id, the bot token, the bot id, the bot user id and the user token. `find_installation`, `delete_bot` and `delete_installation` take more keyword arguments, which the source ignores; the model omits them.
