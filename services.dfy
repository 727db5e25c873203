/**
 * `SwapNegotiationService`, the application service. Its ports are the
 * in-memory repository and directory, the Opsgenie mock (as the schedule
 * reader and as the override writer, possibly the same object) and two
 * optional Slack logs. Every operation is proved to have the effect that the
 * pure definitions of the `Negotiation` module give.
 */
module Services {
  import opened Wrappers
  import opened Time
  import opened Errors
  import opened Models
  import opened OpsgeniePort
  import opened SlackPort
  import opened Directory
  import opened Persistence
  import opened OpsgenieMock
  import opened Negotiation

  /** `get_upcoming_windows` starts at `now` expressed in UTC. */
  function HorizonStart(now: DateTime): (d: DateTime)
    ensures Utc(d) == Utc(now) && d.offset == Some(0)
  {
    DateTime(Utc(now), Some(0))
  }

  /** ... and ends `horizonDays` days later. */
  function HorizonEnd(now: DateTime, horizonDays: int): (d: DateTime)
    ensures Utc(d) == Utc(now) + horizonDays * MicrosPerDay && d.offset == Some(0)
  {
    Shift(HorizonStart(now), horizonDays * MicrosPerDay)
  }

  /**
   * Why `create_offer` fails, in the order of its steps: the let window, the
   * search windows in order, a window in the past, then the Slack ports.
   */
  function CreateError(letWindow: Interval, searchWindows: seq<Interval>, now: int, slackReady: bool): (r: Option<Error>)
    ensures Utc(letWindow.start) >= Utc(letWindow.end) ==> r == Some(InvalidWindow(letWindow.start, letWindow.end))
    ensures r.None? <==>
      && Utc(letWindow.start) < Utc(letWindow.end)
      && (forall i | 0 <= i < |searchWindows| :: Utc(searchWindows[i].start) < Utc(searchWindows[i].end))
      && Utc(letWindow.start) >= now
      && (forall i | 0 <= i < |searchWindows| :: Utc(searchWindows[i].start) >= now)
      && slackReady
  {
    match MakeWindow(letWindow.start, letWindow.end)
    case Failure(e) => Some(e)
    case Success(lw) =>
      match ToWindows(searchWindows)
      case Failure(e) => Some(e)
      case Success(sw) =>
        var past := PastWindowError(lw, sw, now);
        if past.Some? then past
        else if !slackReady then Some(SlackPortsMissing)
        else None
  }

  /**
   * The end of `_prompt_initial_participants` once both Slack ports are
   * configured: a non-empty list of holders is prompted, and the call passes
   * four arguments where the port declares five (`need_owner` is left out),
   * so the first prompt raises.
   */
  function PromptError(assignments: seq<OnCallAssignment>, o: OfferView): (r: Option<Error>)
    ensures r.Some? ==> r.value == PromptArgumentMissing
  {
    if SearchHolders(assignments, o) != [] || OtherHolders(assignments, o) != [] then Some(PromptArgumentMissing)
    else None
  }

  /** The prompts raise exactly when someone other than the requester holds a slot on the horizon. */
  lemma {:induction false} PromptsRaiseIffOthersOnCall(assignments: seq<OnCallAssignment>, o: OfferView)
    ensures PromptError(assignments, o).None? <==>
      forall i | 0 <= i < |assignments| :: assignments[i].participant.id == o.requester.id
    decreases |assignments|
  {
    if assignments != [] {
      var init := assignments[..|assignments| - 1];
      PromptsRaiseIffOthersOnCall(init, o);
      assert forall i | 0 <= i < |init| :: init[i] == assignments[i];
    }
  }

  /**
   * The setup of the repository's ring-swap test: `p4` holds the search
   * window and `p3` the ring window, so `create_offer` raises in its prompts
   * before either `accept_cover` step.
   */
  lemma RingTestCreateRaises(requester: Participant, p3: Participant, p4: Participant,
                             letW: TimeWindow, searchW: TimeWindow, ringW: TimeWindow,
                             id: nat, scheduleId: string, createdAt: int)
    requires requester.id != p4.id
    ensures var o := FreshView(id, requester, scheduleId, letW, [searchW], createdAt);
      PromptError([OnCallAssignment(p4, searchW), OnCallAssignment(p3, ringW)], o) == Some(PromptArgumentMissing)
  {
    var o := FreshView(id, requester, scheduleId, letW, [searchW], createdAt);
    var assignments := [OnCallAssignment(p4, searchW), OnCallAssignment(p3, ringW)];
    assert assignments[0].participant.id != o.requester.id;
    PromptsRaiseIffOthersOnCall(assignments, o);
  }

  class SwapNegotiationService {
    const repository: InMemoryOfferRepository
    const directory: InMemoryParticipantDirectory
    const schedulePort: MockOpsgenieClient
    const overridePort: MockOpsgenieClient
    const notifications: SlackLog?
    const prompts: PromptPort?

    ghost predicate Valid()
      reads this, repository, directory
    {
      repository.Valid() && directory.Valid()
    }

    /** What `_require_slack_ports` checks: both Slack ports are configured. */
    predicate SlackReady()
    {
      notifications != null && prompts != null
    }

    constructor (repository: InMemoryOfferRepository, directory: InMemoryParticipantDirectory,
                 schedulePort: MockOpsgenieClient, overridePort: MockOpsgenieClient,
                 notifications: SlackLog?, prompts: PromptPort?)
      ensures this.repository == repository && this.directory == directory
      ensures this.schedulePort == schedulePort && this.overridePort == overridePort
      ensures this.notifications == notifications && this.prompts == prompts
    {
      this.repository := repository;
      this.directory := directory;
      this.schedulePort := schedulePort;
      this.overridePort := overridePort;
      this.notifications := notifications;
      this.prompts := prompts;
    }

    /** `_get_offer`: the stored offer, or `OfferNotFound`. */
    method GetOffer(offerId: nat) returns (r: Result<SwapOffer, Error>)
      requires Valid()
      ensures r.Success? <==> offerId in repository.storage
      ensures r.Success? ==> r.value == repository.storage[offerId] && r.value.id == offerId
      ensures r.Failure? ==> r.error == OfferNotFound(offerId)
    {
      var offer := repository.Get(offerId);
      if offer == null {
        return Failure(OfferNotFound(offerId));
      }
      return Success(offer);
    }

    /**
     * `_ensure_participant`: the participant known under the email ignoring
     * case, or a new one with that email and the id `freshId`, which is then
     * stored.
     */
    method EnsureParticipant(email: string, freshId: nat) returns (p: Participant)
      requires Valid()
      modifies directory
      ensures Valid()
      ensures p == EnsuredParticipant(old(directory.byEmail), email, freshId)
      ensures directory.byEmail == EnsuredEmails(old(directory.byEmail), email, freshId)
      ensures directory.byId == EnsuredIds(old(directory.byEmail), old(directory.byId), email, freshId)
    {
      var existing := directory.GetByEmail(email);
      if existing.Some? {
        return existing.value;
      }
      p := directory.Upsert(Participant(freshId, email, None, None));
    }

    /** `_apply_direct_override`: the two overrides of a direct swap, in order. */
    method ApplyDirectOverride(offer: SwapOffer, participant: Participant, swapWindow: TimeWindow)
      modifies overridePort`overrides
      ensures overridePort.overrides == old(overridePort.overrides) + DirectOverrides(offer.View(), participant, swapWindow)
    {
      var assignments := [OnCallAssignment(participant, offer.letWindow), OnCallAssignment(offer.requester, swapWindow)];
      overridePort.ApplyOverrides(offer.scheduleId, assignments);
    }

    /** `_finalize_ring`: the ring, when there is one, is recorded on the offer. */
    method FinalizeRing(offer: SwapOffer, final: seq<RingSwapCommitment>) returns (r: Result<Option<RingSwap>, Error>)
      modifies offer
      ensures r == Negotiation.FinalizeRing(old(offer.partialCommitments), final)
      ensures r.Success? && r.value.Some? ==> offer.View() == RingSwapRecorded(old(offer.View()), r.value.value)
      ensures !(r.Success? && r.value.Some?) ==> offer.View() == old(offer.View())
    {
      var commitments := offer.partialCommitments + final;
      var unique := CovererIds(commitments);
      if |commitments| < 3 || |unique| < 3 {
        return Success(None);
      }
      var ring := NewRingSwap(commitments);
      if ring.Failure? {
        return Failure(ring.error);
      }
      var recorded := offer.RecordRingSwap(ring.value);
      return Success(Some(recorded));
    }

    /** `_try_complete_ring`, proved to compute `Negotiation.TryCompleteRing` and record its ring. */
    method TryCompleteRing(offer: SwapOffer) returns (r: Result<Option<RingSwap>, Error>)
      modifies offer
      ensures r == Negotiation.TryCompleteRing(old(offer.View()))
      ensures r.Success? && r.value.Some? ==> offer.View() == RingSwapRecorded(old(offer.View()), r.value.value)
      ensures !(r.Success? && r.value.Some?) ==> offer.View() == old(offer.View())
    {
      if offer.partialCommitments == [] {
        return Success(None);
      }
      if offer.outstandingNeeds == [] {
        r := FinalizeRing(offer, []);
        return;
      }
      var closable := ClosableNeeds(offer.outstandingNeeds, offer.searchWindows);
      if closable == [] {
        return Success(None);
      }
      if |closable| != |offer.outstandingNeeds| {
        return Success(None);
      }
      var final := FinalCommitments(offer.requester, closable);
      r := FinalizeRing(offer, final);
    }

    /**
     * `_prompt_initial_participants` up to the prompts: reads the schedule
     * over the offer's horizon and splits the holders other than the
     * requester, then requires both Slack ports.
     */
    method PartitionCandidates(offer: SwapOffer)
      returns (searchParticipants: seq<Participant>, ringParticipants: seq<Participant>, err: Option<Error>)
      ensures var assignments := schedulePort.Schedule(EarliestStart(offer.View()), LatestEnd(offer.View()));
        && searchParticipants == SearchHolders(assignments, offer.View())
        && ringParticipants == OtherHolders(assignments, offer.View())
      ensures err.None? <==> SlackReady()
      ensures err.Some? ==> err.value == SlackPortsMissing
    {
      var o := offer.View();
      var assignments := schedulePort.ListOnCall(offer.scheduleId, EarliestStart(o), LatestEnd(o));
      searchParticipants := [];
      ringParticipants := [];
      for i := 0 to |assignments|
        invariant searchParticipants == SearchHolders(assignments[..i], o)
        invariant ringParticipants == OtherHolders(assignments[..i], o)
      {
        assert assignments[..i + 1][..i] == assignments[..i];
        var assignment := assignments[i];
        if assignment.participant.id == offer.requester.id {
          continue;
        }
        if HasInterval(offer.searchWindows, assignment.window) {
          searchParticipants := searchParticipants + [assignment.participant];
        } else {
          ringParticipants := ringParticipants + [assignment.participant];
        }
      }
      assert assignments[..|assignments|] == assignments;
      err := if SlackReady() then None else Some(SlackPortsMissing);
    }

    /** `get_upcoming_windows`: the participant's windows, ignoring case, over `horizonDays` days from `now`. */
    method GetUpcomingWindows(scheduleId: string, email: string, horizonDays: int, now: DateTime)
      returns (ws: seq<TimeWindow>)
      ensures ws == WindowsOf(schedulePort.Schedule(HorizonStart(now), HorizonEnd(now, horizonDays)), email)
    {
      var start := DateTime(Utc(now), Some(0));
      var end := Shift(start, horizonDays * MicrosPerDay);
      var assignments := schedulePort.ListOnCall(scheduleId, start, end);
      ws := WindowsOf(assignments, email);
    }

    /**
     * Lines 76-118 of `accept_cover`, on a stored offer: the result, the
     * offer, the overrides written and the notices sent are those of
     * `Respond`; the repository keeps the same entries.
     */
    method Negotiate(offer: SwapOffer, participant: Participant, covers: TimeWindow, needs: seq<TimeWindow>, now: int)
      returns (r: Result<Outcome, Error>)
      requires Valid() && offer.id in repository.storage && repository.storage[offer.id] == offer
      modifies offer, repository, overridePort`overrides, notifications
      ensures Valid() && repository.storage == old(repository.storage)
      ensures var resp := Respond(old(offer.View()), participant, covers, needs, now, SlackReady());
        && r == resp.result && offer.View() == resp.offer
        && overridePort.overrides == old(overridePort.overrides) + resp.overrides
        && (notifications != null ==> notifications.notices == old(notifications.notices) + resp.notices)
    {
      if IsDirectSwap(offer.View(), covers, needs) {
        r := SettleDirect(offer, participant, needs[0]);
      } else {
        r := RespondToNeed(offer, participant, covers, needs, now);
      }
    }

    /** Lines 77-83 of `accept_cover`: a direct swap is recorded, stored, written as two overrides and notified. */
    method SettleDirect(offer: SwapOffer, participant: Participant, swapWindow: TimeWindow)
      returns (r: Result<Outcome, Error>)
      requires Valid() && offer.id in repository.storage && repository.storage[offer.id] == offer
      modifies offer, repository, overridePort`overrides, notifications
      ensures Valid() && repository.storage == old(repository.storage)
      ensures var resp := DirectResponse(old(offer.View()), participant, swapWindow, SlackReady());
        && r == resp.result && offer.View() == resp.offer
        && overridePort.overrides == old(overridePort.overrides) + resp.overrides
        && (notifications != null ==> notifications.notices == old(notifications.notices) + resp.notices)
    {
      var swap := offer.RecordDirectSwap(participant, swapWindow);
      repository.Update(offer);
      ApplyDirectOverride(offer, swap.participant, swap.inExchangeFor);
      if !SlackReady() {
        return Failure(SlackPortsMissing);
      }
      notifications.Post(DirectSwapNotified(offer.View(), swap.participant, swap.inExchangeFor));
      return Success(DirectSwapDone(swap));
    }

    /** Lines 85-118 of `accept_cover`: a contribution to the ring, then its closing or an update. */
    method RespondToNeed(offer: SwapOffer, participant: Participant, covers: TimeWindow, needs: seq<TimeWindow>, now: int)
      returns (r: Result<Outcome, Error>)
      requires Valid() && offer.id in repository.storage && repository.storage[offer.id] == offer
      modifies offer, repository, overridePort`overrides, notifications
      ensures Valid() && repository.storage == old(repository.storage)
      ensures var resp := ContributionResponse(old(offer.View()), participant, covers, needs, now, SlackReady());
        && r == resp.result && offer.View() == resp.offer
        && overridePort.overrides == old(overridePort.overrides) + resp.overrides
        && (notifications != null ==> notifications.notices == old(notifications.notices) + resp.notices)
    {
      ghost var o := offer.View();
      ghost var expected := ContributionResponse(o, participant, covers, needs, now, SlackReady());
      var need := ApplyContribution(offer, participant, covers, needs, now);
      if need.None? {
        assert expected == Response(Failure(NoMatchingNeed), o, [], []);
        return Failure(NoMatchingNeed);
      }
      ghost var o1 := offer.View();
      assert o1 == Contribute(o, participant, covers, needs, need.value, now);
      if SameInterval(covers, offer.letWindow) {
        if !SlackReady() {
          assert expected == Response(Failure(SlackPortsMissing), o1, [], []);
          return Failure(SlackPortsMissing);
        }
        assert expected == CloseRing(o1, [RingCandidateNotified(o1, participant)], SlackReady());
        r := CloseAfterCandidate(offer, participant);
      } else {
        assert expected == CloseRing(o1, [], SlackReady());
        repository.Update(offer);
        r := CompleteOrUpdate(offer);
      }
    }

    /** Lines 97-118 of `accept_cover` after a ring candidate: it is notified, then the ring is closed or updated. */
    method CloseAfterCandidate(offer: SwapOffer, participant: Participant) returns (r: Result<Outcome, Error>)
      requires Valid() && offer.id in repository.storage && repository.storage[offer.id] == offer
      requires SlackReady()
      modifies offer, repository, overridePort`overrides, notifications
      ensures Valid() && repository.storage == old(repository.storage)
      ensures var resp := CloseRing(old(offer.View()), [RingCandidateNotified(old(offer.View()), participant)], true);
        && r == resp.result && offer.View() == resp.offer
        && overridePort.overrides == old(overridePort.overrides) + resp.overrides
        && notifications.notices == old(notifications.notices) + resp.notices
    {
      ghost var o := offer.View();
      notifications.Post(RingCandidateNotified(offer.View(), participant));
      CloseRingNotices(o, [RingCandidateNotified(o, participant)], true);
      repository.Update(offer);
      r := CompleteOrUpdate(offer);
    }

    /**
     * Lines 85-99 of `accept_cover` but for the error and the notification:
     * the matching need is resolved, the commitment recorded, and the
     * responder's needs added, as a ring candidate when it covered the let
     * window.
     */
    method ApplyContribution(offer: SwapOffer, participant: Participant, covers: TimeWindow, needs: seq<TimeWindow>, now: int)
      returns (need: Option<WindowNeed>)
      modifies offer
      ensures need == MatchingNeed(old(offer.outstandingNeeds), covers)
      ensures need.None? ==> offer.View() == old(offer.View())
      ensures need.Some? ==> offer.View() == Contribute(old(offer.View()), participant, covers, needs, need.value, now)
    {
      need := offer.ResolveNeed(covers);
      if need.None? {
        return;
      }
      var commitment := offer.AddCommitment(participant, need.value);
      if SameInterval(covers, offer.letWindow) {
        var candidate := offer.RecordRingCandidate(participant, needs, now);
      } else {
        offer.AddAvailableWindows(needs);
        offer.outstandingNeeds := offer.outstandingNeeds + NeedsFor(participant, needs);
      }
    }

    /** Lines 101-118 of `accept_cover`: close the ring and notify, or report the update. */
    method CompleteOrUpdate(offer: SwapOffer) returns (r: Result<Outcome, Error>)
      requires Valid() && offer.id in repository.storage && repository.storage[offer.id] == offer
      modifies offer, repository, overridePort`overrides, notifications
      ensures Valid() && repository.storage == old(repository.storage)
      ensures var resp := CloseRing(old(offer.View()), [], SlackReady());
        && r == resp.result && offer.View() == resp.offer
        && overridePort.overrides == old(overridePort.overrides) + resp.overrides
        && (notifications != null ==> notifications.notices == old(notifications.notices) + resp.notices)
    {
      var ring := TryCompleteRing(offer);
      if ring.Failure? {
        return Failure(ring.error);
      }
      if ring.value.Some? {
        overridePort.ApplyOverrides(offer.scheduleId, RingOverrides(ring.value.value));
        if !SlackReady() {
          return Failure(SlackPortsMissing);
        }
        notifications.Post(RingCompleted(offer.View()));
        repository.Update(offer);
        return Success(RingSwapDone(ring.value.value));
      }
      if !SlackReady() {
        return Failure(SlackPortsMissing);
      }
      notifications.Post(RingUpdated(offer.View()));
      repository.Update(offer);
      return Success(Pending);
    }

    /**
     * `accept_cover`: a missing offer is reported and nothing changes;
     * otherwise the responder is ensured only when the offer is active, and
     * the offer, the overrides and the notices follow `Accept`.
     */
    method AcceptCover(offerId: nat, email: string, covers: Interval, needs: seq<Interval>, freshId: nat, now: int)
      returns (r: Result<Outcome, Error>)
      requires Valid()
      modifies repository, directory, overridePort`overrides, notifications, repository.storage.Values
      ensures Valid() && repository.storage == old(repository.storage)
      ensures offerId !in old(repository.storage) ==>
        && r == Failure(OfferNotFound(offerId))
        && directory.byEmail == old(directory.byEmail) && directory.byId == old(directory.byId)
        && overridePort.overrides == old(overridePort.overrides)
        && (notifications != null ==> notifications.notices == old(notifications.notices))
      ensures offerId in old(repository.storage) ==>
        var offer := old(repository.storage)[offerId];
        var p := EnsuredParticipant(old(directory.byEmail), email, freshId);
        var resp := Accept(old(offer.View()), p, covers, needs, now, SlackReady());
        && r == resp.result && offer.View() == resp.offer
        && overridePort.overrides == old(overridePort.overrides) + resp.overrides
        && (notifications != null ==> notifications.notices == old(notifications.notices) + resp.notices)
        && directory.byEmail == (if old(offer.status) == Active then EnsuredEmails(old(directory.byEmail), email, freshId)
                                 else old(directory.byEmail))
        && directory.byId == (if old(offer.status) == Active
                              then EnsuredIds(old(directory.byEmail), old(directory.byId), email, freshId)
                              else old(directory.byId))
      ensures forall o | o in old(repository.storage.Values) && o.id != offerId :: o.View() == old(o.View())
    {
      var found := GetOffer(offerId);
      if found.Failure? {
        return Failure(found.error);
      }
      var offer := found.value;
      if !offer.IsActive() {
        return Failure(OfferNotActive(offerId));
      }
      var participant := EnsureParticipant(email, freshId);
      var coversWindow := MakeWindow(covers.start, covers.end);
      if coversWindow.Failure? {
        return Failure(coversWindow.error);
      }
      var needsWindows := ToWindows(needs);
      if needsWindows.Failure? {
        return Failure(needsWindows.error);
      }
      r := Negotiate(offer, participant, coversWindow.value, needsWindows.value, now);
    }

    /**
     * `create_offer`: the requester is ensured first; then the windows are
     * validated and the offer created, stored and announced, and its
     * candidates partitioned and prompted. With the Slack ports missing the
     * offer is stored but neither announced nor returned; with them, the
     * offer is stored and announced, and the prompts raise whenever someone
     * other than the requester is on call over its horizon.
     */
    method CreateOffer(requesterEmail: string, scheduleId: string, letWindow: Interval, searchWindows: seq<Interval>,
                       participantId: nat, offerId: nat, now: int, createdAt: int)
      returns (r: Result<SwapOffer, Error>)
      requires Valid()
      modifies repository, directory, notifications
      ensures Valid()
      ensures directory.byEmail == EnsuredEmails(old(directory.byEmail), requesterEmail, participantId)
      ensures directory.byId == EnsuredIds(old(directory.byEmail), old(directory.byId), requesterEmail, participantId)
      ensures CreateError(letWindow, searchWindows, now, SlackReady()).Some? ==>
        r == Failure(CreateError(letWindow, searchWindows, now, SlackReady()).value)
      ensures CreateError(letWindow, searchWindows, now, true).Some? ==>
        && repository.storage == old(repository.storage)
        && (notifications != null ==> notifications.notices == old(notifications.notices))
      ensures CreateError(letWindow, searchWindows, now, true).None? ==>
        var view := FreshView(offerId, EnsuredParticipant(old(directory.byEmail), requesterEmail, participantId), scheduleId,
                              letWindow, ToWindows(searchWindows).value, createdAt);
        && offerId in repository.storage
        && fresh(repository.storage[offerId]) && repository.storage[offerId].View() == view
        && repository.storage == old(repository.storage)[offerId := repository.storage[offerId]]
        && (r.Success? ==> r.value == repository.storage[offerId])
        && (SlackReady() ==>
              var prompt := PromptError(schedulePort.Schedule(EarliestStart(view), LatestEnd(view)), view);
              && (r.Success? <==> prompt.None?)
              && (r.Failure? ==> r.error == prompt.value))
        && (notifications != null ==>
              notifications.notices == old(notifications.notices) + if SlackReady() then [OfferAnnounced(view)] else [])
    {
      var requester := EnsureParticipant(requesterEmail, participantId);
      var letW := MakeWindow(letWindow.start, letWindow.end);
      if letW.Failure? {
        return Failure(letW.error);
      }
      var searchW := ToWindows(searchWindows);
      if searchW.Failure? {
        return Failure(searchW.error);
      }
      var created := SwapOffer.Create(offerId, requester, scheduleId, letW.value, searchW.value, now, createdAt);
      if created.Failure? {
        return Failure(created.error);
      }
      var offer := created.value;
      repository.Add(offer);
      if !SlackReady() {
        return Failure(SlackPortsMissing);
      }
      notifications.Post(OfferAnnounced(offer.View()));
      var searchParticipants, ringParticipants, err := PartitionCandidates(offer);
      if searchParticipants != [] || ringParticipants != [] {
        return Failure(PromptArgumentMissing);
      }
      return Success(offer);
    }
  }
}
