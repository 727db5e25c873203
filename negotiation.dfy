/**
 * The negotiation rules of `SwapNegotiationService`, on offer snapshots:
 * direct-swap classification, ring closure, and the complete effect of one
 * `accept_cover` response once the offer is found, active, and the windows
 * are converted. The service class is proved to behave as `Respond` says.
 */
module Negotiation {
  import opened Wrappers
  import opened Text
  import opened Time
  import opened Errors
  import opened Models
  import opened OpsgeniePort
  import opened SlackPort

  // ---------------------------------------------------------------------------
  // Classification

  /** `_is_direct_swap`: its three early returns, in order. */
  function IsDirectSwap(o: OfferView, covers: TimeWindow, needs: seq<TimeWindow>): (b: bool)
    ensures b <==> SameInterval(covers, o.letWindow) && |needs| == 1 && HasInterval(o.searchWindows, needs[0])
  {
    if !SameInterval(covers, o.letWindow) then false
    else if |needs| != 1 then false
    else HasInterval(o.searchWindows, needs[0])
  }

  // ---------------------------------------------------------------------------
  // Ring closure

  /** The `closable_needs` comprehension: the needs for a search window, in order. */
  function ClosableNeeds(needs: seq<WindowNeed>, search: seq<TimeWindow>): (r: seq<WindowNeed>)
    ensures forall n :: n in r <==> n in needs && HasInterval(search, n.window)
    ensures |r| <= |needs|
  {
    if needs == [] then []
    else (if HasInterval(search, needs[0].window) then [needs[0]] else []) + ClosableNeeds(needs[1..], search)
  }

  /** Every need is closable exactly when none is filtered out, and then the filter is the identity. */
  lemma {:induction false} ClosableNeedsAll(needs: seq<WindowNeed>, search: seq<TimeWindow>)
    ensures |ClosableNeeds(needs, search)| == |needs| <==> forall i | 0 <= i < |needs| :: HasInterval(search, needs[i].window)
    ensures |ClosableNeeds(needs, search)| == |needs| ==> ClosableNeeds(needs, search) == needs
  {
    if needs != [] {
      ClosableNeedsAll(needs[1..], search);
      if !HasInterval(search, needs[0].window) {
        assert !(forall i | 0 <= i < |needs| :: HasInterval(search, needs[i].window));
      } else if forall i | 0 <= i < |needs[1..]| :: HasInterval(search, needs[1..][i].window) {
        assert needs == [needs[0]] + needs[1..];
      } else {
        var j :| 0 <= j < |needs[1..]| && !HasInterval(search, needs[1..][j].window);
        assert needs[j + 1] == needs[1..][j];
      }
    }
  }

  /** `final_commitments`: the requester covers each closable need for its owner. */
  function FinalCommitments(requester: Participant, needs: seq<WindowNeed>): (r: seq<RingSwapCommitment>)
    ensures |r| == |needs|
    ensures forall i | 0 <= i < |needs| :: r[i] == RingSwapCommitment(requester, needs[i].owner, needs[i].window)
  {
    seq(|needs|, i requires 0 <= i < |needs| => RingSwapCommitment(requester, needs[i].owner, needs[i].window))
  }

  /**
   * `_finalize_ring`: no ring below three legs or three distinct coverers;
   * otherwise the `RingSwap` is built, which fails when a coverer repeats.
   */
  function FinalizeRing(partial: seq<RingSwapCommitment>, final: seq<RingSwapCommitment>): (r: Result<Option<RingSwap>, Error>)
    ensures var cs := partial + final;
      && (r == Success(None) <==> |cs| < 3 || |CovererIds(cs)| < 3)
      && (r.Success? && r.value.Some? <==> |cs| >= 3 && DistinctCoverers(cs))
      && (r.Success? && r.value.Some? ==> r.value.value.commitments == cs)
      && (r.Failure? ==> r.error == RingNotUnique)
  {
    var cs := partial + final;
    CovererIdsCount(cs);
    if |cs| < 3 || |CovererIds(cs)| < 3 then Success(None)
    else
      match NewRingSwap(cs)
      case Success(ring) => Success(Some(ring))
      case Failure(e) => Failure(e)
  }

  /** The legs a closed ring would have: the partial commitments, then the requester's leg for each need. */
  function ClosingLegs(o: OfferView): seq<RingSwapCommitment>
  {
    o.partialCommitments + FinalCommitments(o.requester, o.outstandingNeeds)
  }

  /** Every outstanding need is for a search window (vacuously so when there is none). */
  predicate AllNeedsClosable(o: OfferView)
  {
    forall i | 0 <= i < |o.outstandingNeeds| :: HasInterval(o.searchWindows, o.outstandingNeeds[i].window)
  }

  /**
   * `_try_complete_ring`. A ring results exactly when there are partial
   * commitments, every outstanding need is for a search window, and the
   * closing legs number three or more with pairwise distinct coverers; the
   * building of the ring fails exactly when those conditions hold except that
   * some coverer repeats among at least three distinct ones; in every other
   * case there is no ring.
   */
  function TryCompleteRing(o: OfferView): (r: Result<Option<RingSwap>, Error>)
    ensures r.Success? && r.value.Some? <==>
      o.partialCommitments != [] && AllNeedsClosable(o) && |ClosingLegs(o)| >= 3 && DistinctCoverers(ClosingLegs(o))
    ensures r.Success? && r.value.Some? ==> r.value.value.commitments == ClosingLegs(o)
    ensures r.Failure? <==>
      o.partialCommitments != [] && AllNeedsClosable(o) && |ClosingLegs(o)| >= 3
      && |CovererIds(ClosingLegs(o))| >= 3 && !DistinctCoverers(ClosingLegs(o))
    ensures r.Failure? ==> r.error == RingNotUnique
  {
    ClosableNeedsAll(o.outstandingNeeds, o.searchWindows);
    if o.partialCommitments == [] then Success(None)
    else if o.outstandingNeeds == [] then
      assert ClosingLegs(o) == o.partialCommitments + [];
      FinalizeRing(o.partialCommitments, [])
    else
      var closable := ClosableNeeds(o.outstandingNeeds, o.searchWindows);
      if closable == [] then
        assert o.outstandingNeeds[0] !in closable;
        Success(None)
      else if |closable| != |o.outstandingNeeds| then Success(None)
      else FinalizeRing(o.partialCommitments, FinalCommitments(o.requester, closable))
  }

  /** With no partial commitment, or some need a search window cannot close, there is no ring and no error. */
  lemma NoRingCases(o: OfferView)
    ensures o.partialCommitments == [] ==> TryCompleteRing(o) == Success(None)
    ensures (exists i | 0 <= i < |o.outstandingNeeds| :: !HasInterval(o.searchWindows, o.outstandingNeeds[i].window))
            ==> TryCompleteRing(o) == Success(None)
  {
  }

  // ---------------------------------------------------------------------------
  // One response

  datatype Outcome = DirectSwapDone(swap: DirectSwap) | RingSwapDone(ring: RingSwap) | Pending

  /** Everything one response produces: its result, the offer after it, the overrides logged and the notices sent. */
  datatype Response = Response(result: Result<Outcome, Error>, offer: OfferView,
                               overrides: seq<OnCallAssignment>, notices: seq<Notice>)

  /** `_apply_direct_override`: the responder takes the let window, the requester takes the traded window. */
  function DirectOverrides(o: OfferView, participant: Participant, swapWindow: TimeWindow): (r: seq<OnCallAssignment>)
    ensures |r| == 2
    ensures r[0] == OnCallAssignment(participant, o.letWindow) && r[1] == OnCallAssignment(o.requester, swapWindow)
  {
    [OnCallAssignment(participant, o.letWindow), OnCallAssignment(o.requester, swapWindow)]
  }

  /** One override per ring leg, in order: the covering participant takes the leg's window. */
  function RingOverrides(ring: RingSwap): (r: seq<OnCallAssignment>)
    ensures |r| == |ring.commitments|
    ensures forall i | 0 <= i < |r| ::
      r[i] == OnCallAssignment(ring.commitments[i].fromParticipant, ring.commitments[i].window)
  {
    seq(|ring.commitments|, i requires 0 <= i < |ring.commitments| =>
      OnCallAssignment(ring.commitments[i].fromParticipant, ring.commitments[i].window))
  }

  /**
   * The offer after a non-direct response that matched `need`: the need is
   * resolved, the commitment recorded, and the responder's own needs added,
   * through `record_ring_candidate` when it covered the let window.
   */
  function Contribute(o: OfferView, participant: Participant, covers: TimeWindow, needs: seq<TimeWindow>,
                      need: WindowNeed, now: int): OfferView
  {
    var o1 := CommitmentAdded(NeedsResolved(o, covers), RingSwapCommitment(participant, need.owner, need.window));
    if SameInterval(covers, o.letWindow) then RingCandidateRecorded(o1, RingCandidate(participant, o.letWindow, needs, now))
    else NeedsAdded(o1, participant, needs)
  }

  /**
   * Lines 102-118 of `accept_cover`: try to close the ring on `o`, then apply
   * its overrides and notify, or report the update. `notices` are those sent
   * earlier in the same response; `slackReady` says whether both Slack ports
   * are configured, which `_require_slack_ports` checks just before each
   * notification.
   */
  function CloseRing(o: OfferView, notices: seq<Notice>, slackReady: bool): Response
  {
    match TryCompleteRing(o)
    case Failure(e) => Response(Failure(e), o, [], notices)
    case Success(None) =>
      if !slackReady then Response(Failure(SlackPortsMissing), o, [], notices)
      else Response(Success(Pending), o, [], notices + [RingUpdated(o)])
    case Success(Some(ring)) =>
      var o1 := RingSwapRecorded(o, ring);
      if !slackReady then Response(Failure(SlackPortsMissing), o1, RingOverrides(ring), notices)
      else Response(Success(RingSwapDone(ring)), o1, RingOverrides(ring), notices + [RingCompleted(o1)])
  }

  /** Notices sent earlier in the response come first; the rest of `CloseRing` does not depend on them. */
  lemma CloseRingNotices(o: OfferView, notices: seq<Notice>, slackReady: bool)
    ensures var base := CloseRing(o, [], slackReady);
      CloseRing(o, notices, slackReady) == base.(notices := notices + base.notices)
  {
  }

  /**
   * `accept_cover` from line 76 on, for a `participant` covering `covers` and
   * asking for `needs`; `now` is the clock reading that stamps a ring candidate.
   */
  function Respond(o: OfferView, participant: Participant, covers: TimeWindow, needs: seq<TimeWindow>,
                   now: int, slackReady: bool): Response
  {
    if IsDirectSwap(o, covers, needs) then DirectResponse(o, participant, needs[0], slackReady)
    else ContributionResponse(o, participant, covers, needs, now, slackReady)
  }

  /** Lines 77-83: the direct swap is recorded, its two overrides written, and it is notified. */
  function DirectResponse(o: OfferView, participant: Participant, swapWindow: TimeWindow, slackReady: bool): Response
  {
    var swap := DirectSwap(participant, o.letWindow, swapWindow);
    var o1 := DirectSwapRecorded(o, swap);
    var overrides := DirectOverrides(o, participant, swapWindow);
    if !slackReady then Response(Failure(SlackPortsMissing), o1, overrides, [])
    else Response(Success(DirectSwapDone(swap)), o1, overrides, [DirectSwapNotified(o1, participant, swapWindow)])
  }

  /** Lines 85-118: the response contributes to the ring, which is then closed or reported as updated. */
  function ContributionResponse(o: OfferView, participant: Participant, covers: TimeWindow, needs: seq<TimeWindow>,
                                now: int, slackReady: bool): Response
  {
    match MatchingNeed(o.outstandingNeeds, covers)
    case None => Response(Failure(NoMatchingNeed), o, [], [])
    case Some(need) =>
      var o1 := Contribute(o, participant, covers, needs, need, now);
      if SameInterval(covers, o.letWindow) then
        if !slackReady then Response(Failure(SlackPortsMissing), o1, [], [])
        else CloseRing(o1, [RingCandidateNotified(o1, participant)], slackReady)
      else CloseRing(o1, [], slackReady)
  }

  /**
   * `accept_cover` from line 69 on, once the offer is found and the responder
   * is known: an offer that is not active is refused, then the covered window
   * and the needed windows are validated in order, then `Respond` applies.
   */
  function Accept(o: OfferView, participant: Participant, covers: Interval, needs: seq<Interval>,
                  now: int, slackReady: bool): Response
  {
    if o.status != Active then Response(Failure(OfferNotActive(o.id)), o, [], [])
    else
      match MakeWindow(covers.start, covers.end)
      case Failure(e) => Response(Failure(e), o, [], [])
      case Success(cw) =>
        match ToWindows(needs)
        case Failure(e) => Response(Failure(e), o, [], [])
        case Success(nw) => Respond(o, participant, cw, nw, now, slackReady)
  }

  // ---------------------------------------------------------------------------
  // Properties of a response

  /**
   * The direct path: the offer is fulfilled with that one swap and nothing
   * outstanding, the two overrides are logged in order, and the swap is the
   * result unless Slack is not configured, whose error comes after the
   * overrides.
   */
  lemma DirectPath(o: OfferView, participant: Participant, covers: TimeWindow, needs: seq<TimeWindow>, now: int, slackReady: bool)
    requires IsDirectSwap(o, covers, needs)
    ensures var resp := Respond(o, participant, covers, needs, now, slackReady);
      && resp.offer.status == Fulfilled
      && resp.offer.outstandingNeeds == [] && resp.offer.partialCommitments == []
      && resp.offer.directAgreements == o.directAgreements + [DirectSwap(participant, o.letWindow, needs[0])]
      && resp.overrides == [OnCallAssignment(participant, o.letWindow), OnCallAssignment(o.requester, needs[0])]
      && resp.result == (if slackReady then Success(DirectSwapDone(DirectSwap(participant, o.letWindow, needs[0])))
                         else Failure(SlackPortsMissing))
  {
  }

  /** A non-direct response for an interval nobody needs fails and changes nothing. */
  lemma NoMatchingNeedPath(o: OfferView, participant: Participant, covers: TimeWindow, needs: seq<TimeWindow>, now: int, slackReady: bool)
    requires !IsDirectSwap(o, covers, needs)
    requires forall i | 0 <= i < |o.outstandingNeeds| :: !SameInterval(o.outstandingNeeds[i].window, covers)
    ensures Respond(o, participant, covers, needs, now, slackReady) == Response(Failure(NoMatchingNeed), o, [], [])
  {
  }

  /**
   * A contribution removes every need for the covered interval, records one
   * commitment from the responder to the first such need's owner, adds one
   * need of the responder per window it asks for, and makes those windows
   * available; nothing else about the needs changes.
   */
  lemma ContributionEffect(o: OfferView, participant: Participant, covers: TimeWindow, needs: seq<TimeWindow>,
                           need: WindowNeed, now: int)
    requires MatchingNeed(o.outstandingNeeds, covers) == Some(need)
    ensures var o1 := Contribute(o, participant, covers, needs, need, now);
      && o1.partialCommitments == o.partialCommitments + [RingSwapCommitment(participant, need.owner, need.window)]
      && o1.outstandingNeeds == WithoutInterval(o.outstandingNeeds, covers) + NeedsFor(participant, needs)
      && o1.availableWindows == AddAvailable(o.availableWindows, needs)
      && o1.status == o.status
      && SameInterval(need.window, covers)
      && (forall n | n in o1.outstandingNeeds ::
            (n in o.outstandingNeeds && !SameInterval(n.window, covers)) || (n.owner == participant && !n.createdByOffer))
  {
  }

  /**
   * A non-direct answer that leaves the ring open returns no swap, logs no
   * override and leaves the offer's status as it was.
   */
  lemma PendingPath(o: OfferView, participant: Participant, covers: TimeWindow, needs: seq<TimeWindow>,
                    need: WindowNeed, now: int, slackReady: bool)
    requires !IsDirectSwap(o, covers, needs)
    requires MatchingNeed(o.outstandingNeeds, covers) == Some(need)
    requires TryCompleteRing(Contribute(o, participant, covers, needs, need, now)) == Success(None)
    ensures var resp := Respond(o, participant, covers, needs, now, slackReady);
      && resp.offer == Contribute(o, participant, covers, needs, need, now)
      && resp.offer.status == o.status
      && resp.overrides == []
      && resp.result == (if slackReady then Success(Pending) else Failure(SlackPortsMissing))
  {
  }

  /**
   * A non-direct answer that closes the ring fulfils the offer with that ring
   * and logs one override per leg, in leg order.
   */
  lemma RingPath(o: OfferView, participant: Participant, covers: TimeWindow, needs: seq<TimeWindow>,
                 need: WindowNeed, now: int, slackReady: bool)
    requires !IsDirectSwap(o, covers, needs)
    requires MatchingNeed(o.outstandingNeeds, covers) == Some(need)
    requires SameInterval(covers, o.letWindow) ==> slackReady
    requires var o1 := Contribute(o, participant, covers, needs, need, now);
      && o1.partialCommitments != [] && AllNeedsClosable(o1)
      && |ClosingLegs(o1)| >= 3 && DistinctCoverers(ClosingLegs(o1))
    ensures var o1 := Contribute(o, participant, covers, needs, need, now);
      var resp := Respond(o, participant, covers, needs, now, slackReady);
      && resp.offer == RingSwapRecorded(o1, RingSwap(ClosingLegs(o1)))
      && resp.offer.status == Fulfilled
      && |resp.overrides| == |ClosingLegs(o1)|
      && (forall i | 0 <= i < |resp.overrides| ::
            resp.overrides[i] == OnCallAssignment(ClosingLegs(o1)[i].fromParticipant, ClosingLegs(o1)[i].window))
      && resp.result == (if slackReady then Success(RingSwapDone(RingSwap(ClosingLegs(o1)))) else Failure(SlackPortsMissing))
  {
  }

  /**
   * On an active offer, a response logs overrides exactly when it fulfils the
   * offer, and it never fulfils the offer without a direct-swap or ring
   * result unless the Slack ports are missing.
   */
  lemma OverridesIffFulfilled(o: OfferView, participant: Participant, covers: TimeWindow, needs: seq<TimeWindow>, now: int, slackReady: bool)
    requires o.status == Active
    ensures var resp := Respond(o, participant, covers, needs, now, slackReady);
      && (resp.overrides != [] <==> resp.offer.status == Fulfilled)
      && (resp.offer.status == Fulfilled && slackReady ==> resp.result.Success? && !resp.result.value.Pending?)
      && (resp.result.Success? && resp.result.value.Pending? ==> resp.offer.status == Active)
  {
    if !IsDirectSwap(o, covers, needs) {
      match MatchingNeed(o.outstandingNeeds, covers)
      case None =>
      case Some(need) =>
        var o1 := Contribute(o, participant, covers, needs, need, now);
        var r := TryCompleteRing(o1);
        if r.Success? && r.value.Some? {
          assert |r.value.value.commitments| >= 3;
        }
    }
  }

  /** A response on an active consistent offer leaves a consistent offer. */
  lemma RespondKeepsConsistent(o: OfferView, participant: Participant, covers: TimeWindow, needs: seq<TimeWindow>, now: int, slackReady: bool)
    requires Consistent(o) && o.status == Active
    ensures Consistent(Respond(o, participant, covers, needs, now, slackReady).offer)
  {
    var swap := DirectSwap(participant, o.letWindow, if |needs| > 0 then needs[0] else covers);
    var dummyRing := RingSwap([]);
    match MatchingNeed(o.outstandingNeeds, covers)
    case None =>
      TransitionsKeepConsistent(o, covers, RingSwapCommitment(participant, participant, covers), participant, needs,
                                RingCandidate(participant, o.letWindow, needs, now), swap, dummyRing);
    case Some(need) =>
      var c := RingSwapCommitment(participant, need.owner, need.window);
      var candidate := RingCandidate(participant, o.letWindow, needs, now);
      TransitionsKeepConsistent(o, covers, c, participant, needs, candidate, swap, dummyRing);
      var o1 := CommitmentAdded(NeedsResolved(o, covers), c);
      TransitionsKeepConsistent(NeedsResolved(o, covers), covers, c, participant, needs, candidate, swap, dummyRing);
      TransitionsKeepConsistent(o1, covers, c, participant, needs, candidate, swap, dummyRing);
      var o2 := Contribute(o, participant, covers, needs, need, now);
      var r := TryCompleteRing(o2);
      if r.Success? && r.value.Some? {
        TransitionsKeepConsistent(o2, covers, c, participant, needs, candidate, swap, r.value.value);
      }
  }

  /**
   * An offer is settled at most once: after a response that fulfils it, or on
   * any offer that is not active, a further response is refused with
   * `OfferNotActive` and changes nothing.
   */
  lemma SettledOnce(o: OfferView, p1: Participant, covers1: Interval, needs1: seq<Interval>, now1: int,
                    p2: Participant, covers2: Interval, needs2: seq<Interval>, now2: int, slackReady: bool)
    requires Accept(o, p1, covers1, needs1, now1, slackReady).offer.status != Active
    ensures var o1 := Accept(o, p1, covers1, needs1, now1, slackReady).offer;
      Accept(o1, p2, covers2, needs2, now2, slackReady) == Response(Failure(OfferNotActive(o.id)), o1, [], [])
  {
    var o1 := Accept(o, p1, covers1, needs1, now1, slackReady).offer;
    AcceptKeepsId(o, p1, covers1, needs1, now1, slackReady);
  }

  lemma AcceptKeepsId(o: OfferView, p: Participant, covers: Interval, needs: seq<Interval>, now: int, slackReady: bool)
    ensures Accept(o, p, covers, needs, now, slackReady).offer.id == o.id
  {
    if o.status == Active && MakeWindow(covers.start, covers.end).Success? && ToWindows(needs).Success? {
      var cw := MakeWindow(covers.start, covers.end).value;
      var nw := ToWindows(needs).value;
      if !IsDirectSwap(o, cw, nw) {
        match MatchingNeed(o.outstandingNeeds, cw)
        case None =>
        case Some(need) =>
          var o1 := Contribute(o, p, cw, nw, need, now);
          assert o1.id == o.id;
      }
    }
  }

  /**
   * A window that fails validation, the covered one first, is reported and
   * leaves the offer as it was, with no override and no notice.
   */
  lemma InvalidWindowRefused(o: OfferView, p: Participant, covers: Interval, needs: seq<Interval>, now: int, slackReady: bool)
    requires o.status == Active
    requires Utc(covers.start) >= Utc(covers.end) || exists i | 0 <= i < |needs| :: Utc(needs[i].start) >= Utc(needs[i].end)
    ensures var resp := Accept(o, p, covers, needs, now, slackReady);
      && resp.offer == o && resp.overrides == [] && resp.notices == []
      && (Utc(covers.start) >= Utc(covers.end) ==> resp.result == Failure(InvalidWindow(covers.start, covers.end)))
      && (Utc(covers.start) < Utc(covers.end) ==> resp.result == Failure(ToWindows(needs).error))
  {
  }

  /** Accepting on a consistent offer leaves a consistent offer. */
  lemma AcceptKeepsConsistent(o: OfferView, p: Participant, covers: Interval, needs: seq<Interval>, now: int, slackReady: bool)
    requires Consistent(o)
    ensures Consistent(Accept(o, p, covers, needs, now, slackReady).offer)
  {
    if o.status == Active && MakeWindow(covers.start, covers.end).Success? && ToWindows(needs).Success? {
      RespondKeepsConsistent(o, p, MakeWindow(covers.start, covers.end).value, ToWindows(needs).value, now, slackReady);
    }
  }

  // ---------------------------------------------------------------------------
  // Scenarios

  /** A fresh offer after `p` covers its let window asking for `other` in return. */
  function AfterLetCovered(o0: OfferView, p: Participant, other: TimeWindow, now: int): OfferView
  {
    o0.(ringCandidates := [RingCandidate(p, o0.letWindow, [other], now)],
        partialCommitments := [RingSwapCommitment(p, o0.requester, o0.letWindow)],
        availableWindows := AddAvailable(o0.availableWindows, [other]),
        outstandingNeeds := [WindowNeed(p, other, false)])
  }

  /**
   * The first response to a fresh offer covers the let window and asks for a
   * window that is not a search window: the ring stays open, and the need
   * created by the offer is gone although the offer is still active.
   */
  lemma LetCoveredFirst(requester: Participant, p: Participant, letW: TimeWindow, search: seq<TimeWindow>,
                        other: TimeWindow, id: nat, scheduleId: string, createdAt: int, now: int)
    requires !HasInterval(search, other)
    ensures var o0 := FreshView(id, requester, scheduleId, letW, search, createdAt);
      var o1 := AfterLetCovered(o0, p, other, now);
      && Respond(o0, p, letW, [other], now, true)
         == Response(Success(Pending), o1, [], [RingCandidateNotified(o1, p), RingUpdated(o1)])
      && o1.status == Active
      && forall i | 0 <= i < |o1.outstandingNeeds| :: !o1.outstandingNeeds[i].createdByOffer
  {
    var o0 := FreshView(id, requester, scheduleId, letW, search, createdAt);
    var need := WindowNeed(requester, letW, true);
    assert SameInterval(letW, letW);
    assert MatchingNeed(o0.outstandingNeeds, letW) == Some(need);
    assert WithoutInterval([need], letW) == [];
    var o1 := AfterLetCovered(o0, p, other, now);
    assert Contribute(o0, p, letW, [other], need, now) == o1;
    assert !HasInterval(o1.searchWindows, o1.outstandingNeeds[0].window);
    NoRingCases(o1);
  }

  /**
   * The three-party ring of the repository's ring-swap test: the requester
   * lets `letW` and searches `searchW`; `p3` covers `letW` needing `ringW`;
   * `p4` then covers `ringW` needing `searchW`. The second response closes a
   * ring of three legs, fulfils the offer and logs three overrides.
   */
  lemma ThreePartyRing(requester: Participant, p3: Participant, p4: Participant,
                       letW: TimeWindow, searchW: TimeWindow, ringW: TimeWindow,
                       id: nat, scheduleId: string, createdAt: int, now1: int, now2: int)
    requires requester.id != p3.id && requester.id != p4.id && p3.id != p4.id
    requires !SameInterval(searchW, ringW) && !SameInterval(letW, ringW)
    ensures var o0 := FreshView(id, requester, scheduleId, letW, [searchW], createdAt);
      var first := Respond(o0, p3, letW, [ringW], now1, true);
      var second := Respond(first.offer, p4, ringW, [searchW], now2, true);
      && first.result == Success(Pending)
      && first.offer.status == Active
      && first.overrides == []
      && second.result == Success(RingSwapDone(RingSwap([
           RingSwapCommitment(p3, requester, letW),
           RingSwapCommitment(p4, p3, ringW),
           RingSwapCommitment(requester, p4, searchW)])))
      && second.offer.status == Fulfilled
      && second.overrides == [OnCallAssignment(p3, letW), OnCallAssignment(p4, ringW), OnCallAssignment(requester, searchW)]
      && |second.notices| == 1 && second.notices[0].RingCompleted?
  {
    var o0 := FreshView(id, requester, scheduleId, letW, [searchW], createdAt);
    assert !HasInterval([searchW], ringW);
    LetCoveredFirst(requester, p3, letW, [searchW], ringW, id, scheduleId, createdAt, now1);
    var o1 := AfterLetCovered(o0, p3, ringW, now1);
    SecondCoversRingWindow(o1, requester, p3, p4, letW, searchW, ringW, now2);
  }

  lemma SecondCoversRingWindow(o1: OfferView, requester: Participant, p3: Participant, p4: Participant,
                               letW: TimeWindow, searchW: TimeWindow, ringW: TimeWindow, now: int)
    requires requester.id != p3.id && requester.id != p4.id && p3.id != p4.id
    requires !SameInterval(letW, ringW)
    requires o1.requester == requester && o1.letWindow == letW && o1.searchWindows == [searchW]
    requires o1.outstandingNeeds == [WindowNeed(p3, ringW, false)]
    requires o1.partialCommitments == [RingSwapCommitment(p3, requester, letW)]
    ensures var second := Respond(o1, p4, ringW, [searchW], now, true);
      && second.result == Success(RingSwapDone(RingSwap([
           RingSwapCommitment(p3, requester, letW),
           RingSwapCommitment(p4, p3, ringW),
           RingSwapCommitment(requester, p4, searchW)])))
      && second.offer.status == Fulfilled
      && second.overrides == [OnCallAssignment(p3, letW), OnCallAssignment(p4, ringW), OnCallAssignment(requester, searchW)]
      && |second.notices| == 1 && second.notices[0].RingCompleted?
  {
    var need := WindowNeed(p3, ringW, false);
    assert SameInterval(ringW, ringW) && SameInterval(searchW, searchW);
    assert MatchingNeed(o1.outstandingNeeds, ringW) == Some(need);
    assert !IsDirectSwap(o1, ringW, [searchW]);
    assert WithoutInterval([need], ringW) == [];
    var o2 := Contribute(o1, p4, ringW, [searchW], need, now);
    assert o2.outstandingNeeds == [WindowNeed(p4, searchW, false)];
    assert o2.partialCommitments == [RingSwapCommitment(p3, requester, letW), RingSwapCommitment(p4, p3, ringW)];
    var legs := ClosingLegs(o2);
    assert legs == [RingSwapCommitment(p3, requester, letW), RingSwapCommitment(p4, p3, ringW),
                    RingSwapCommitment(requester, p4, searchW)];
    assert HasInterval(o2.searchWindows, o2.outstandingNeeds[0].window);
    assert AllNeedsClosable(o2);
    assert DistinctCoverers(legs);
    assert TryCompleteRing(o2) == Success(Some(RingSwap(legs)));
  }

  /**
   * A direct swap arriving while a ring is half built: after `a` covers the
   * let window needing `ringW`, `c` trades the let window for the search
   * window. Recording the direct swap clears `a`'s commitment and need, so
   * the offer ends fulfilled with the two direct overrides only.
   */
  lemma DirectSwapAfterPartialRing(requester: Participant, a: Participant, c: Participant,
                                   letW: TimeWindow, searchW: TimeWindow, ringW: TimeWindow,
                                   id: nat, scheduleId: string, createdAt: int, now1: int, now2: int)
    requires !SameInterval(searchW, ringW)
    ensures var o0 := FreshView(id, requester, scheduleId, letW, [searchW], createdAt);
      var first := Respond(o0, a, letW, [ringW], now1, true);
      var second := Respond(first.offer, c, letW, [searchW], now2, true);
      && first.offer.partialCommitments == [RingSwapCommitment(a, requester, letW)]
      && second.result == Success(DirectSwapDone(DirectSwap(c, letW, searchW)))
      && second.offer.status == Fulfilled
      && second.offer.partialCommitments == [] && second.offer.outstandingNeeds == []
      && second.overrides == [OnCallAssignment(c, letW), OnCallAssignment(requester, searchW)]
  {
    var o0 := FreshView(id, requester, scheduleId, letW, [searchW], createdAt);
    assert !HasInterval([searchW], ringW);
    LetCoveredFirst(requester, a, letW, [searchW], ringW, id, scheduleId, createdAt, now1);
    var o1 := AfterLetCovered(o0, a, ringW, now1);
    assert SameInterval(letW, letW) && SameInterval(searchW, searchW);
    assert IsDirectSwap(o1, letW, [searchW]);
    DirectPath(o1, c, letW, [searchW], now2, true);
  }

  /**
   * A ring attempt can fail rather than wait: after `a` covers the let window
   * needing `x`, a `b` who covers `x` needing both search windows makes the
   * requester cover twice. The legs have three distinct coverers, which passes
   * the guard of `_finalize_ring`, but not pairwise distinct ones, so building
   * the ring fails; the offer keeps `b`'s commitment and stays active.
   */
  lemma RepeatedCovererFails(requester: Participant, a: Participant, b: Participant,
                             letW: TimeWindow, s1: TimeWindow, s2: TimeWindow, x: TimeWindow,
                             id: nat, scheduleId: string, createdAt: int, now1: int, now2: int)
    requires requester.id != a.id && requester.id != b.id && a.id != b.id
    requires !SameInterval(letW, x) && !SameInterval(s1, x) && !SameInterval(s2, x)
    ensures var o0 := FreshView(id, requester, scheduleId, letW, [s1, s2], createdAt);
      var first := Respond(o0, a, letW, [x], now1, true);
      var second := Respond(first.offer, b, x, [s1, s2], now2, true);
      && first.result == Success(Pending)
      && second.result == Failure(RingNotUnique)
      && second.overrides == []
      && second.offer.status == Active
      && second.offer.partialCommitments == [RingSwapCommitment(a, requester, letW), RingSwapCommitment(b, a, x)]
  {
    var o0 := FreshView(id, requester, scheduleId, letW, [s1, s2], createdAt);
    assert !HasInterval([s1, s2], x);
    LetCoveredFirst(requester, a, letW, [s1, s2], x, id, scheduleId, createdAt, now1);
    var o1 := AfterLetCovered(o0, a, x, now1);
    SecondDoublesRequester(o1, requester, a, b, letW, s1, s2, x, now2);
  }

  lemma SecondDoublesRequester(o1: OfferView, requester: Participant, a: Participant, b: Participant,
                               letW: TimeWindow, s1: TimeWindow, s2: TimeWindow, x: TimeWindow, now: int)
    requires requester.id != a.id && requester.id != b.id && a.id != b.id
    requires !SameInterval(letW, x)
    requires o1.requester == requester && o1.letWindow == letW && o1.searchWindows == [s1, s2]
    requires o1.status == Active
    requires o1.outstandingNeeds == [WindowNeed(a, x, false)]
    requires o1.partialCommitments == [RingSwapCommitment(a, requester, letW)]
    ensures var second := Respond(o1, b, x, [s1, s2], now, true);
      && second.result == Failure(RingNotUnique)
      && second.overrides == []
      && second.offer.status == Active
      && second.offer.partialCommitments == [RingSwapCommitment(a, requester, letW), RingSwapCommitment(b, a, x)]
  {
    var need := WindowNeed(a, x, false);
    assert SameInterval(x, x) && SameInterval(s1, s1) && SameInterval(s2, s2);
    assert MatchingNeed(o1.outstandingNeeds, x) == Some(need);
    assert !IsDirectSwap(o1, x, [s1, s2]);
    assert WithoutInterval([need], x) == [];
    var o2 := Contribute(o1, b, x, [s1, s2], need, now);
    assert o2.outstandingNeeds == [WindowNeed(b, s1, false), WindowNeed(b, s2, false)];
    DoubledRequesterLegs(o2, requester, a, b, letW, s1, s2, x);
    assert Respond(o1, b, x, [s1, s2], now, true) == CloseRing(o2, [], true);
  }

  lemma DoubledRequesterLegs(o2: OfferView, requester: Participant, a: Participant, b: Participant,
                             letW: TimeWindow, s1: TimeWindow, s2: TimeWindow, x: TimeWindow)
    requires requester.id != a.id && requester.id != b.id && a.id != b.id
    requires o2.requester == requester && o2.searchWindows == [s1, s2]
    requires o2.outstandingNeeds == [WindowNeed(b, s1, false), WindowNeed(b, s2, false)]
    requires o2.partialCommitments == [RingSwapCommitment(a, requester, letW), RingSwapCommitment(b, a, x)]
    ensures TryCompleteRing(o2) == Failure(RingNotUnique)
  {
    var legs := ClosingLegs(o2);
    assert legs == [RingSwapCommitment(a, requester, letW), RingSwapCommitment(b, a, x),
                    RingSwapCommitment(requester, b, s1), RingSwapCommitment(requester, b, s2)];
    assert SameInterval(o2.searchWindows[0], o2.outstandingNeeds[0].window);
    assert SameInterval(o2.searchWindows[1], o2.outstandingNeeds[1].window);
    assert legs[2].fromParticipant.id == legs[3].fromParticipant.id;
    assert {a.id, b.id, requester.id} <= CovererIds(legs) by {
      assert legs[0] in legs && legs[1] in legs && legs[2] in legs;
    }
    SubsetCard({a.id, b.id, requester.id}, CovererIds(legs));
  }

  lemma SubsetCard(a: set<nat>, b: set<nat>)
    requires a <= b
    ensures |a| <= |b|
  {
    assert b == a + (b - a);
  }

  /**
   * The available windows can hold the same interval twice: they start as a
   * copy of the search windows, which nothing deduplicates.
   */
  lemma AvailableMayRepeat(requester: Participant, letW: TimeWindow, searchW: TimeWindow, id: nat, scheduleId: string, createdAt: int)
    ensures !NoDuplicateIntervals(FreshView(id, requester, scheduleId, letW, [searchW, searchW], createdAt).availableWindows)
  {
    var ws := FreshView(id, requester, scheduleId, letW, [searchW, searchW], createdAt).availableWindows;
    assert SameInterval(ws[0], ws[1]);
  }

  // ---------------------------------------------------------------------------
  // Reading the schedule

  /** The `get_upcoming_windows` filter: windows of the assignments whose email matches, ignoring case, in port order. */
  function WindowsOf(assignments: seq<OnCallAssignment>, email: string): (r: seq<TimeWindow>)
    ensures |r| <= |assignments|
    ensures forall w :: w in r <==> exists i | 0 <= i < |assignments| ::
      assignments[i].window == w && Lower(assignments[i].participant.email) == Lower(email)
    decreases |assignments|
  {
    if assignments == [] then []
    else
      var last := assignments[|assignments| - 1];
      var init := assignments[..|assignments| - 1];
      var r := WindowsOf(init, email);
      assert forall i | 0 <= i < |init| :: init[i] == assignments[i];
      if Lower(last.participant.email) == Lower(email) then r + [last.window] else r
  }

  /** The filter keeps port order: it distributes over concatenation. */
  lemma {:induction false} WindowsOfAppend(a: seq<OnCallAssignment>, b: seq<OnCallAssignment>, email: string)
    ensures WindowsOf(a + b, email) == WindowsOf(a, email) + WindowsOf(b, email)
    decreases |b|
  {
    if b == [] {
      assert a + b == a;
    } else {
      var init := b[..|b| - 1];
      assert (a + b)[..|a + b| - 1] == a + init;
      WindowsOfAppend(a, init, email);
    }
  }

  /** Spelling the target email in another case gives the same windows. */
  lemma WindowsOfIgnoresCase(assignments: seq<OnCallAssignment>, e1: string, e2: string)
    requires Lower(e1) == Lower(e2)
    ensures WindowsOf(assignments, e1) == WindowsOf(assignments, e2)
  {
  }

  /**
   * `_prompt_initial_participants`, the partition: the requester is skipped;
   * a holder of an assignment for exactly a search window goes to the first
   * list, every other holder to the second, in port order.
   */
  function SearchHolders(assignments: seq<OnCallAssignment>, o: OfferView): (r: seq<Participant>)
    ensures forall p :: p in r <==> exists i | 0 <= i < |assignments| ::
      && assignments[i].participant == p && p.id != o.requester.id && HasInterval(o.searchWindows, assignments[i].window)
    decreases |assignments|
  {
    if assignments == [] then []
    else
      var last := assignments[|assignments| - 1];
      var init := assignments[..|assignments| - 1];
      assert forall i | 0 <= i < |init| :: init[i] == assignments[i];
      var r := SearchHolders(init, o);
      if last.participant.id != o.requester.id && HasInterval(o.searchWindows, last.window) then r + [last.participant] else r
  }

  function OtherHolders(assignments: seq<OnCallAssignment>, o: OfferView): (r: seq<Participant>)
    ensures forall p :: p in r <==> exists i | 0 <= i < |assignments| ::
      && assignments[i].participant == p && p.id != o.requester.id && !HasInterval(o.searchWindows, assignments[i].window)
    decreases |assignments|
  {
    if assignments == [] then []
    else
      var last := assignments[|assignments| - 1];
      var init := assignments[..|assignments| - 1];
      assert forall i | 0 <= i < |init| :: init[i] == assignments[i];
      var r := OtherHolders(init, o);
      if last.participant.id != o.requester.id && !HasInterval(o.searchWindows, last.window) then r + [last.participant] else r
  }

  /** Every assignment not held by the requester lands in exactly one of the two lists. */
  lemma {:induction false} PartitionCounts(assignments: seq<OnCallAssignment>, o: OfferView)
    ensures |SearchHolders(assignments, o)| + |OtherHolders(assignments, o)|
            == |assignments| - |RequesterHeld(assignments, o)|
    decreases |assignments|
  {
    if assignments != [] {
      PartitionCounts(assignments[..|assignments| - 1], o);
    }
  }

  /** The assignments the partition skips, those of the requester. */
  function RequesterHeld(assignments: seq<OnCallAssignment>, o: OfferView): (r: seq<OnCallAssignment>)
    ensures forall a | a in r :: a in assignments && a.participant.id == o.requester.id
    decreases |assignments|
  {
    if assignments == [] then []
    else
      var last := assignments[|assignments| - 1];
      var r := RequesterHeld(assignments[..|assignments| - 1], o);
      if last.participant.id == o.requester.id then r + [last] else r
  }

  /** The earliest start among the let and search windows (`min` keeps the first of equal values). */
  function EarliestStart(o: OfferView): (d: DateTime)
    ensures Utc(d) <= Utc(o.letWindow.start)
    ensures forall i | 0 <= i < |o.searchWindows| :: Utc(d) <= Utc(o.searchWindows[i].start)
    ensures d == o.letWindow.start || exists i | 0 <= i < |o.searchWindows| :: d == o.searchWindows[i].start
  {
    MinStart(o.letWindow.start, o.searchWindows)
  }

  /** The latest end among the let and search windows (`max` keeps the first of equal values). */
  function LatestEnd(o: OfferView): (d: DateTime)
    ensures Utc(d) >= Utc(o.letWindow.end)
    ensures forall i | 0 <= i < |o.searchWindows| :: Utc(d) >= Utc(o.searchWindows[i].end)
    ensures d == o.letWindow.end || exists i | 0 <= i < |o.searchWindows| :: d == o.searchWindows[i].end
  {
    MaxEnd(o.letWindow.end, o.searchWindows)
  }

  function MinStart(acc: DateTime, ws: seq<TimeWindow>): (d: DateTime)
    decreases |ws|
    ensures Utc(d) <= Utc(acc)
    ensures forall i | 0 <= i < |ws| :: Utc(d) <= Utc(ws[i].start)
    ensures d == acc || exists i | 0 <= i < |ws| :: d == ws[i].start
  {
    if ws == [] then acc
    else
      var next := if Utc(ws[0].start) < Utc(acc) then ws[0].start else acc;
      var d := MinStart(next, ws[1..]);
      assert forall i | 0 <= i < |ws[1..]| :: ws[1..][i] == ws[i + 1];
      d
  }

  function MaxEnd(acc: DateTime, ws: seq<TimeWindow>): (d: DateTime)
    decreases |ws|
    ensures Utc(d) >= Utc(acc)
    ensures forall i | 0 <= i < |ws| :: Utc(d) >= Utc(ws[i].end)
    ensures d == acc || exists i | 0 <= i < |ws| :: d == ws[i].end
  {
    if ws == [] then acc
    else
      var next := if Utc(ws[0].end) > Utc(acc) then ws[0].end else acc;
      var d := MaxEnd(next, ws[1..]);
      assert forall i | 0 <= i < |ws[1..]| :: ws[1..][i] == ws[i + 1];
      d
  }
}
