/**
 * The domain aggregate: time windows, participants, needs, ring legs, and the
 * `SwapOffer` whose negotiation state the engine mutates in place.
 */
module Models {
  import opened Wrappers
  import opened Time
  import opened Errors

  // ---------------------------------------------------------------------------
  // TimeWindow

  /** Two datetimes as given, before validation (also the shape of `TimeWindowDTO`). */
  datatype Interval = Interval(start: DateTime, end: DateTime)

  /** A validated half-open window `[start, end)`: every value has `end > start`. */
  type TimeWindow = w: Interval | Utc(w.start) < Utc(w.end)
    witness Interval(DateTime(0, None), DateTime(1, None))

  /** Construction of a `TimeWindow`: pydantic's validator rejects `end <= start`. */
  function MakeWindow(start: DateTime, end: DateTime): (r: Result<TimeWindow, Error>)
    ensures r.Success? <==> Utc(start) < Utc(end)
    ensures r.Success? ==> r.value.start == start && r.value.end == end
    ensures r.Failure? ==> r.error == InvalidWindow(start, end)
  {
    if Utc(end) <= Utc(start) then Failure(InvalidWindow(start, end)) else Success(Interval(start, end))
  }

  /** Converting a list of raw windows in order, as a comprehension over `MakeWindow` does: the first invalid one fails it. */
  function ToWindows(dtos: seq<Interval>): (r: Result<seq<TimeWindow>, Error>)
    ensures r.Success? <==> forall i | 0 <= i < |dtos| :: Utc(dtos[i].start) < Utc(dtos[i].end)
    ensures r.Success? ==> |r.value| == |dtos| && forall i | 0 <= i < |dtos| :: r.value[i] == dtos[i]
    ensures r.Failure? ==> exists i | 0 <= i < |dtos| ::
      && Utc(dtos[i].start) >= Utc(dtos[i].end)
      && (forall j | 0 <= j < i :: Utc(dtos[j].start) < Utc(dtos[j].end))
      && r.error == InvalidWindow(dtos[i].start, dtos[i].end)
  {
    if dtos == [] then Success([])
    else
      match MakeWindow(dtos[0].start, dtos[0].end)
      case Failure(e) => Failure(e)
      case Success(w) =>
        var rest := ToWindows(dtos[1..]);
        if rest.Failure? then
          assert exists i | 1 <= i < |dtos| ::
            && Utc(dtos[i].start) >= Utc(dtos[i].end)
            && (forall j | 0 <= j < i :: Utc(dtos[j].start) < Utc(dtos[j].end))
            && rest.error == InvalidWindow(dtos[i].start, dtos[i].end)
          by {
            var k :| 0 <= k < |dtos[1..]| && Utc(dtos[1..][k].start) >= Utc(dtos[1..][k].end)
              && (forall j | 0 <= j < k :: Utc(dtos[1..][j].start) < Utc(dtos[1..][j].end))
              && rest.error == InvalidWindow(dtos[1..][k].start, dtos[1..][k].end);
            assert dtos[k + 1] == dtos[1..][k];
            forall j | 0 <= j < k + 1
              ensures Utc(dtos[j].start) < Utc(dtos[j].end)
            {
              if j > 0 { assert dtos[j] == dtos[1..][j - 1]; }
            }
          }
          Failure(rest.error)
        else
          assert forall i | 1 <= i < |dtos| :: dtos[i] == dtos[1..][i - 1];
          Success([w] + rest.value)
  }

  function Duration(w: TimeWindow): (d: int)
    ensures d > 0
  {
    Utc(w.end) - Utc(w.start)
  }

  predicate Overlaps(a: TimeWindow, b: TimeWindow)
  {
    Utc(a.start) < Utc(b.end) && Utc(b.start) < Utc(a.end)
  }

  predicate Contains(w: TimeWindow, moment: DateTime)
  {
    Utc(w.start) <= Utc(moment) < Utc(w.end)
  }

  /**
   * `intersection`: None exactly when the windows do not overlap, otherwise
   * `[max start, min end)` (Python's `max`/`min` keep the first of two equal
   * arguments), which contains precisely the instants both windows contain.
   */
  function Intersection(a: TimeWindow, b: TimeWindow): (r: Option<TimeWindow>)
    ensures r.None? <==> !Overlaps(a, b)
    ensures r.Some? ==> Utc(r.value.start) == (if Utc(a.start) < Utc(b.start) then Utc(b.start) else Utc(a.start))
    ensures r.Some? ==> Utc(r.value.end) == (if Utc(b.end) < Utc(a.end) then Utc(b.end) else Utc(a.end))
    ensures r.Some? ==> forall m :: Contains(r.value, m) <==> Contains(a, m) && Contains(b, m)
  {
    if !Overlaps(a, b) then None
    else
      var start := if Utc(b.start) > Utc(a.start) then b.start else a.start;
      var end := if Utc(b.end) < Utc(a.end) then b.end else a.end;
      Some(Interval(start, end))
  }

  lemma OverlapsSymmetric(a: TimeWindow, b: TimeWindow)
    ensures Overlaps(a, b) <==> Overlaps(b, a)
  {
  }

  /** Overlap is strict: windows that only touch do not overlap; a window overlaps itself. */
  lemma OverlapsStrict(a: TimeWindow, b: TimeWindow)
    ensures Utc(a.end) <= Utc(b.start) ==> !Overlaps(a, b)
    ensures Overlaps(a, a)
  {
  }

  /** `contains` is half-open: the start is inside, the end is not. */
  lemma ContainsHalfOpen(w: TimeWindow)
    ensures Contains(w, w.start)
    ensures !Contains(w, w.end)
  {
  }

  /** Exact-interval equality, `a.to_tuple() == b.to_tuple()`. */
  predicate SameInterval(a: Interval, b: Interval)
  {
    SameMoment(a.start, b.start) && SameMoment(a.end, b.end)
  }

  /** Some element of `ws` has exactly the interval of `w`. */
  predicate HasInterval(ws: seq<TimeWindow>, w: TimeWindow)
  {
    exists i | 0 <= i < |ws| :: SameInterval(ws[i], w)
  }

  /** No two entries of `ws` have the same interval. */
  predicate NoDuplicateIntervals(ws: seq<TimeWindow>)
  {
    forall i, j | 0 <= i < j < |ws| :: !SameInterval(ws[i], ws[j])
  }

  // ---------------------------------------------------------------------------
  // Participants, needs, commitments

  datatype Participant = Participant(id: nat, email: string, slackUserId: Option<string>, opsgenieUserId: Option<string>)

  datatype OfferStatus = Active | Fulfilled | Cancelled

  datatype DirectSwap = DirectSwap(participant: Participant, coversWindow: TimeWindow, inExchangeFor: TimeWindow)

  datatype WindowNeed = WindowNeed(owner: Participant, window: TimeWindow, createdByOffer: bool)

  datatype RingCandidate = RingCandidate(participant: Participant, coversWindow: TimeWindow, needsWindows: seq<TimeWindow>, createdAt: int)

  /** One leg of a ring: `fromParticipant` staffs `window` on behalf of `toParticipant`. */
  datatype RingSwapCommitment = RingSwapCommitment(fromParticipant: Participant, toParticipant: Participant, window: TimeWindow)

  datatype RingSwap = RingSwap(commitments: seq<RingSwapCommitment>)

  /** `{c.from_participant.id for c in commitments}`. */
  function CovererIds(cs: seq<RingSwapCommitment>): set<nat>
  {
    set c | c in cs :: c.fromParticipant.id
  }

  predicate DistinctCoverers(cs: seq<RingSwapCommitment>)
  {
    forall i, j | 0 <= i < j < |cs| :: cs[i].fromParticipant.id != cs[j].fromParticipant.id
  }

  /** Peeling the first leg off the list of coverers. */
  lemma CovererIdsCons(cs: seq<RingSwapCommitment>)
    requires cs != []
    ensures CovererIds(cs) == {cs[0].fromParticipant.id} + CovererIds(cs[1..])
  {
    assert cs == [cs[0]] + cs[1..];
  }

  /** The legs are distinct exactly when the tail is and the first coverer does not recur in it. */
  lemma DistinctCoverersCons(cs: seq<RingSwapCommitment>)
    requires cs != []
    ensures DistinctCoverers(cs) <==> DistinctCoverers(cs[1..]) && cs[0].fromParticipant.id !in CovererIds(cs[1..])
  {
    var rest := cs[1..];
    if cs[0].fromParticipant.id in CovererIds(rest) {
      var c :| c in rest && c.fromParticipant.id == cs[0].fromParticipant.id;
      var j :| 0 <= j < |rest| && rest[j] == c;
      assert cs[j + 1] == c;
    } else if DistinctCoverers(rest) {
      forall i, j | 0 <= i < j < |cs|
        ensures cs[i].fromParticipant.id != cs[j].fromParticipant.id
      {
        if i == 0 {
          assert cs[j] == rest[j - 1];
        } else {
          assert cs[i] == rest[i - 1] && cs[j] == rest[j - 1];
        }
      }
    } else {
      var i, j :| 0 <= i < j < |rest| && rest[i].fromParticipant.id == rest[j].fromParticipant.id;
      assert cs[i + 1] == rest[i] && cs[j + 1] == rest[j];
    }
  }

  /**
   * The set of covering ids is never larger than the list, and it is exactly
   * as large precisely when no two legs share a covering participant.
   */
  lemma {:induction false} CovererIdsCount(cs: seq<RingSwapCommitment>)
    ensures |CovererIds(cs)| <= |cs|
    ensures |CovererIds(cs)| == |cs| <==> DistinctCoverers(cs)
  {
    if cs != [] {
      CovererIdsCount(cs[1..]);
      CovererIdsCons(cs);
      DistinctCoverersCons(cs);
    }
  }

  /**
   * Building a `RingSwap` (`validate_ring_chain`): it needs at least three
   * legs whose covering participants are pairwise distinct.
   */
  function NewRingSwap(cs: seq<RingSwapCommitment>): (r: Result<RingSwap, Error>)
    ensures r.Success? <==> |cs| >= 3 && DistinctCoverers(cs)
    ensures r.Success? ==> r.value.commitments == cs
    ensures r.Failure? ==> r.error == (if |cs| < 3 then RingTooShort else RingNotUnique)
  {
    CovererIdsCount(cs);
    if |cs| < 3 then Failure(RingTooShort)
    else if |CovererIds(cs)| != |cs| then Failure(RingNotUnique)
    else Success(RingSwap(cs))
  }

  // ---------------------------------------------------------------------------
  // The list operations behind the SwapOffer mutators

  /** `find_need`: the first outstanding need whose interval equals `w`. */
  function MatchingNeed(needs: seq<WindowNeed>, w: TimeWindow): (r: Option<WindowNeed>)
    ensures r.None? <==> forall i | 0 <= i < |needs| :: !SameInterval(needs[i].window, w)
    ensures r.Some? ==> exists i | 0 <= i < |needs| ::
      && needs[i] == r.value
      && SameInterval(needs[i].window, w)
      && forall j | 0 <= j < i :: !SameInterval(needs[j].window, w)
  {
    if needs == [] then None
    else if SameInterval(needs[0].window, w) then Some(needs[0])
    else
      var r := MatchingNeed(needs[1..], w);
      assert r.Some? ==> exists i | 1 <= i < |needs| ::
        && needs[i] == r.value
        && SameInterval(needs[i].window, w)
        && forall j | 0 <= j < i :: !SameInterval(needs[j].window, w)
      by {
        if r.Some? {
          var k :| 0 <= k < |needs[1..]| && needs[1..][k] == r.value && SameInterval(needs[1..][k].window, w)
            && forall j | 0 <= j < k :: !SameInterval(needs[1..][j].window, w);
          assert needs[k + 1] == r.value;
          forall j | 0 <= j < k + 1
            ensures !SameInterval(needs[j].window, w)
          {
            if j > 0 { assert needs[j] == needs[1..][j - 1]; }
          }
        }
      }
      r
  }

  /** The comprehension in `resolve_need`: every need whose interval is not `w`, in order. */
  function WithoutInterval(needs: seq<WindowNeed>, w: TimeWindow): (r: seq<WindowNeed>)
    ensures forall n :: n in r <==> n in needs && !SameInterval(n.window, w)
    ensures |r| <= |needs|
  {
    if needs == [] then []
    else (if SameInterval(needs[0].window, w) then [] else [needs[0]]) + WithoutInterval(needs[1..], w)
  }

  /** The filter keeps order: it distributes over concatenation. */
  lemma {:induction false} WithoutIntervalAppend(a: seq<WindowNeed>, b: seq<WindowNeed>, w: TimeWindow)
    ensures WithoutInterval(a + b, w) == WithoutInterval(a, w) + WithoutInterval(b, w)
  {
    if a != [] {
      assert (a + b)[1..] == a[1..] + b;
      WithoutIntervalAppend(a[1..], b, w);
    } else {
      assert a + b == b;
    }
  }

  /** With nothing to remove, the filter is the identity. */
  lemma {:induction false} WithoutIntervalNoMatch(needs: seq<WindowNeed>, w: TimeWindow)
    requires forall i | 0 <= i < |needs| :: !SameInterval(needs[i].window, w)
    ensures WithoutInterval(needs, w) == needs
  {
    if needs != [] {
      WithoutIntervalNoMatch(needs[1..], w);
      assert needs == [needs[0]] + needs[1..];
    }
  }

  /** The needs `record_ring_candidate` and `accept_cover` add: one per window, owned by `owner`. */
  function NeedsFor(owner: Participant, windows: seq<TimeWindow>): seq<WindowNeed>
  {
    seq(|windows|, i requires 0 <= i < |windows| => WindowNeed(owner, windows[i], false))
  }

  /**
   * `add_available_windows`: append each window, in order, unless an entry with
   * the same interval is already present (including one appended earlier in
   * the same call).
   */
  function AddAvailable(existing: seq<TimeWindow>, windows: seq<TimeWindow>): seq<TimeWindow>
    decreases |windows|
  {
    if windows == [] then existing
    else
      var acc := AddAvailable(existing, windows[..|windows| - 1]);
      var w := windows[|windows| - 1];
      if HasInterval(acc, w) then acc else acc + [w]
  }

  /** Existing entries are kept, in order, as a prefix. */
  lemma {:induction false} AddAvailableKeepsPrefix(existing: seq<TimeWindow>, windows: seq<TimeWindow>)
    ensures existing <= AddAvailable(existing, windows)
    decreases |windows|
  {
    if windows != [] {
      AddAvailableKeepsPrefix(existing, windows[..|windows| - 1]);
    }
  }

  /** Afterwards every given window is present by interval, and nothing else was added. */
  lemma {:induction false} AddAvailableContents(existing: seq<TimeWindow>, windows: seq<TimeWindow>)
    ensures forall i | 0 <= i < |windows| :: HasInterval(AddAvailable(existing, windows), windows[i])
    ensures forall x | x in AddAvailable(existing, windows) :: x in existing || x in windows
    decreases |windows|
  {
    if windows != [] {
      var init := windows[..|windows| - 1];
      var w := windows[|windows| - 1];
      AddAvailableContents(existing, init);
      var acc := AddAvailable(existing, init);
      var r := AddAvailable(existing, windows);
      assert acc <= r by { if !HasInterval(acc, w) { assert r == acc + [w]; } }
      forall i | 0 <= i < |windows|
        ensures HasInterval(r, windows[i])
      {
        if i < |windows| - 1 {
          assert windows[i] == init[i];
          var k :| 0 <= k < |acc| && SameInterval(acc[k], init[i]);
          assert r[k] == acc[k];
        } else if !HasInterval(acc, w) {
          assert r[|acc|] == w;
          SameMomentIsEquivalence(w.start, w.start, w.start);
          SameMomentIsEquivalence(w.end, w.end, w.end);
        }
      }
      forall x | x in r
        ensures x in existing || x in windows
      {
        if x in acc && x in init {
          var k :| 0 <= k < |init| && init[k] == x;
          assert windows[k] == x;
        }
      }
    }
  }

  /** A window is added only when no entry with its interval is already present. */
  lemma {:induction false} AddAvailableKeepsNoDuplicates(existing: seq<TimeWindow>, windows: seq<TimeWindow>)
    requires NoDuplicateIntervals(existing)
    ensures NoDuplicateIntervals(AddAvailable(existing, windows))
    decreases |windows|
  {
    if windows != [] {
      var init := windows[..|windows| - 1];
      var w := windows[|windows| - 1];
      AddAvailableKeepsNoDuplicates(existing, init);
      var acc := AddAvailable(existing, init);
      if !HasInterval(acc, w) {
        var r := acc + [w];
        forall i, j | 0 <= i < j < |r|
          ensures !SameInterval(r[i], r[j])
        {
          if j == |acc| {
            assert r[i] == acc[i] && r[j] == w;
          } else {
            assert r[i] == acc[i] && r[j] == acc[j];
          }
        }
      }
    }
  }

  /**
   * Whatever the existing list holds, even repeated intervals, no window the
   * call appends has an interval already present before it.
   */
  lemma {:induction false} AddAvailableNeverReadds(existing: seq<TimeWindow>, windows: seq<TimeWindow>)
    ensures var r := AddAvailable(existing, windows);
      forall i | |existing| <= i < |r| :: !HasInterval(r[..i], r[i])
    decreases |windows|
  {
    if windows != [] {
      var init := windows[..|windows| - 1];
      var w := windows[|windows| - 1];
      AddAvailableNeverReadds(existing, init);
      AddAvailableKeepsPrefix(existing, init);
      var acc := AddAvailable(existing, init);
      if !HasInterval(acc, w) {
        var r := acc + [w];
        forall i | |existing| <= i < |r|
          ensures !HasInterval(r[..i], r[i])
        {
          if i == |acc| {
            assert r[..i] == acc;
          } else {
            assert r[..i] == acc[..i] && r[i] == acc[i];
          }
        }
      }
    }
  }

  /** Adding windows that are all present already changes nothing. */
  lemma {:induction false} AddAvailableAbsorbs(existing: seq<TimeWindow>, windows: seq<TimeWindow>)
    requires forall i | 0 <= i < |windows| :: HasInterval(existing, windows[i])
    ensures AddAvailable(existing, windows) == existing
    decreases |windows|
  {
    if windows != [] {
      var init := windows[..|windows| - 1];
      assert forall i | 0 <= i < |init| :: init[i] == windows[i];
      AddAvailableAbsorbs(existing, init);
    }
  }

  /** `add_available_windows` is idempotent. */
  lemma AddAvailableIdempotent(existing: seq<TimeWindow>, windows: seq<TimeWindow>)
    ensures AddAvailable(AddAvailable(existing, windows), windows) == AddAvailable(existing, windows)
  {
    AddAvailableContents(existing, windows);
    AddAvailableAbsorbs(AddAvailable(existing, windows), windows);
  }

  // ---------------------------------------------------------------------------
  // SwapOffer

  /** A value snapshot of every field of a `SwapOffer`. */
  datatype OfferView = OfferView(
    id: nat,
    requester: Participant,
    scheduleId: string,
    letWindow: TimeWindow,
    searchWindows: seq<TimeWindow>,
    createdAt: int,
    status: OfferStatus,
    availableWindows: seq<TimeWindow>,
    directAgreements: seq<DirectSwap>,
    ringCandidates: seq<RingCandidate>,
    ringSwaps: seq<RingSwap>,
    outstandingNeeds: seq<WindowNeed>,
    partialCommitments: seq<RingSwapCommitment>)

  /** The offer `SwapOffer.create` builds. */
  function FreshView(id: nat, requester: Participant, scheduleId: string, letWindow: TimeWindow,
                     searchWindows: seq<TimeWindow>, createdAt: int): OfferView
  {
    OfferView(id, requester, scheduleId, letWindow, searchWindows, createdAt, Active, searchWindows,
              [], [], [], [WindowNeed(requester, letWindow, true)], [])
  }

  /**
   * A fresh offer is active, offers exactly its search windows, owes only the
   * let window (the one need created by the offer) and has no history.
   */
  lemma FreshOffer(id: nat, requester: Participant, scheduleId: string, letWindow: TimeWindow,
                   searchWindows: seq<TimeWindow>, createdAt: int)
    ensures var o := FreshView(id, requester, scheduleId, letWindow, searchWindows, createdAt);
      && o.status == Active
      && o.availableWindows == searchWindows
      && |o.outstandingNeeds| == 1
      && o.outstandingNeeds[0] == WindowNeed(requester, letWindow, true)
      && o.partialCommitments == [] && o.directAgreements == [] && o.ringSwaps == []
  {
  }

  // The state transitions of the mutators, on snapshots.

  /** `resolve_need` after a match: every need with the interval of `w` is dropped. */
  function NeedsResolved(o: OfferView, w: TimeWindow): OfferView
  {
    o.(outstandingNeeds := WithoutInterval(o.outstandingNeeds, w))
  }

  /** `add_commitment`: one more partial commitment. */
  function CommitmentAdded(o: OfferView, c: RingSwapCommitment): OfferView
  {
    o.(partialCommitments := o.partialCommitments + [c])
  }

  /** The responder's own needs: its windows become available and one need per window is owed to it. */
  function NeedsAdded(o: OfferView, participant: Participant, windows: seq<TimeWindow>): OfferView
  {
    o.(availableWindows := AddAvailable(o.availableWindows, windows),
       outstandingNeeds := o.outstandingNeeds + NeedsFor(participant, windows))
  }

  /** `record_ring_candidate`: the candidate is logged and its needs added. */
  function RingCandidateRecorded(o: OfferView, c: RingCandidate): OfferView
  {
    NeedsAdded(o.(ringCandidates := o.ringCandidates + [c]), c.participant, c.needsWindows)
  }

  /** `record_direct_swap`: the swap is logged and the negotiation is over. */
  function DirectSwapRecorded(o: OfferView, swap: DirectSwap): OfferView
  {
    o.(directAgreements := o.directAgreements + [swap], status := Fulfilled,
       outstandingNeeds := [], partialCommitments := [])
  }

  /** `record_ring_swap`: the ring is logged and the negotiation is over. */
  function RingSwapRecorded(o: OfferView, ring: RingSwap): OfferView
  {
    o.(ringSwaps := o.ringSwaps + [ring], status := Fulfilled,
       outstandingNeeds := [], partialCommitments := [])
  }

  /** Resolving an interval no need has changes nothing. */
  lemma NeedsResolvedNoMatch(o: OfferView, w: TimeWindow)
    requires MatchingNeed(o.outstandingNeeds, w).None?
    ensures NeedsResolved(o, w) == o
  {
    WithoutIntervalNoMatch(o.outstandingNeeds, w);
  }

  /**
   * The state invariant the mutators keep: the search windows stay at the
   * head of the available windows; an active offer has no recorded swap; a
   * fulfilled one has exactly one and nothing outstanding.
   */
  predicate Consistent(o: OfferView)
  {
    && o.searchWindows <= o.availableWindows
    && |o.directAgreements| + |o.ringSwaps| <= 1
    && (o.status == Active ==> o.directAgreements == [] && o.ringSwaps == [])
    && (o.status == Fulfilled ==> o.outstandingNeeds == [] && o.partialCommitments == []
                                  && |o.directAgreements| + |o.ringSwaps| == 1)
  }

  lemma FreshConsistent(id: nat, requester: Participant, scheduleId: string, letWindow: TimeWindow,
                        searchWindows: seq<TimeWindow>, createdAt: int)
    ensures Consistent(FreshView(id, requester, scheduleId, letWindow, searchWindows, createdAt))
  {
  }

  /**
   * On an active offer, the bookkeeping mutators keep it active and
   * consistent, and each recording mutator makes it fulfilled and consistent.
   */
  lemma TransitionsKeepConsistent(o: OfferView, w: TimeWindow, c: RingSwapCommitment, participant: Participant,
                                  windows: seq<TimeWindow>, candidate: RingCandidate, swap: DirectSwap, ring: RingSwap)
    requires Consistent(o) && o.status == Active
    ensures Consistent(NeedsResolved(o, w)) && NeedsResolved(o, w).status == Active
    ensures Consistent(CommitmentAdded(o, c)) && CommitmentAdded(o, c).status == Active
    ensures Consistent(NeedsAdded(o, participant, windows)) && NeedsAdded(o, participant, windows).status == Active
    ensures Consistent(RingCandidateRecorded(o, candidate)) && RingCandidateRecorded(o, candidate).status == Active
    ensures Consistent(DirectSwapRecorded(o, swap)) && DirectSwapRecorded(o, swap).status == Fulfilled
    ensures Consistent(RingSwapRecorded(o, ring)) && RingSwapRecorded(o, ring).status == Fulfilled
  {
    AddAvailableKeepsPrefix(o.availableWindows, windows);
    AddAvailableKeepsPrefix(o.availableWindows, candidate.needsWindows);
  }

  /** Cancelling keeps the invariant whatever the status. */
  lemma CancelKeepsConsistent(o: OfferView)
    requires Consistent(o)
    ensures Consistent(o.(status := Cancelled))
  {
  }

  /**
   * The mutators never put a second copy of an interval into the available
   * windows: if they had none to start with, they still have none.
   */
  lemma TransitionsKeepAvailableUnique(o: OfferView, participant: Participant, windows: seq<TimeWindow>, candidate: RingCandidate)
    requires NoDuplicateIntervals(o.availableWindows)
    ensures NoDuplicateIntervals(NeedsAdded(o, participant, windows).availableWindows)
    ensures NoDuplicateIntervals(RingCandidateRecorded(o, candidate).availableWindows)
  {
    AddAvailableKeepsNoDuplicates(o.availableWindows, windows);
    AddAvailableKeepsNoDuplicates(o.availableWindows, candidate.needsWindows);
  }

  /**
   * On any offer, even one whose available windows already repeat an
   * interval, the windows these mutators append are new intervals: the old
   * list stays as a prefix and no appended entry repeats an earlier one.
   */
  lemma TransitionsNeverReaddAvailable(o: OfferView, participant: Participant, windows: seq<TimeWindow>, candidate: RingCandidate)
    ensures var r := NeedsAdded(o, participant, windows).availableWindows;
      o.availableWindows <= r && forall i | |o.availableWindows| <= i < |r| :: !HasInterval(r[..i], r[i])
    ensures var r := RingCandidateRecorded(o, candidate).availableWindows;
      o.availableWindows <= r && forall i | |o.availableWindows| <= i < |r| :: !HasInterval(r[..i], r[i])
  {
    AddAvailableKeepsPrefix(o.availableWindows, windows);
    AddAvailableKeepsPrefix(o.availableWindows, candidate.needsWindows);
    AddAvailableNeverReadds(o.availableWindows, windows);
    AddAvailableNeverReadds(o.availableWindows, candidate.needsWindows);
  }

  /** `_ensure_future`: a window whose start (naive read as UTC) lies before the instant is refused. */
  function EnsureFuture(w: TimeWindow, instant: int, which: WindowLabel): (r: Option<Error>)
    ensures r.None? <==> Utc(w.start) >= instant
    ensures r.Some? ==> r.value == TimeWindowInPast(which, w.start, instant)
  {
    if Utc(w.start) < instant then Some(TimeWindowInPast(which, w.start, instant)) else None
  }

  /** A naive start is compared by its wall clock, an aware one after conversion; a start equal to now passes. */
  lemma EnsureFutureReadsNaiveAsUtc(w: TimeWindow, instant: int, which: WindowLabel)
    ensures w.start.offset.None? ==> (EnsureFuture(w, instant, which).None? <==> w.start.wall >= instant)
    ensures w.start.offset.Some? ==> (EnsureFuture(w, instant, which).None? <==> w.start.wall - w.start.offset.value >= instant)
    ensures Utc(w.start) == instant ==> EnsureFuture(w, instant, which).None?
  {
  }

  /** The first search window that starts before `now`, as the error `create` reports for it. */
  function FirstPastSearch(ws: seq<TimeWindow>, now: int): (r: Option<Error>)
    ensures r.None? <==> forall i | 0 <= i < |ws| :: Utc(ws[i].start) >= now
    ensures r.Some? ==> exists i | 0 <= i < |ws| ::
      && Utc(ws[i].start) < now
      && (forall j | 0 <= j < i :: Utc(ws[j].start) >= now)
      && r.value == TimeWindowInPast(SearchWindowLabel, ws[i].start, now)
  {
    if ws == [] then None
    else if EnsureFuture(ws[0], now, SearchWindowLabel).Some? then EnsureFuture(ws[0], now, SearchWindowLabel)
    else
      var r := FirstPastSearch(ws[1..], now);
      assert r.Some? ==> exists i | 1 <= i < |ws| ::
        && Utc(ws[i].start) < now
        && (forall j | 0 <= j < i :: Utc(ws[j].start) >= now)
        && r.value == TimeWindowInPast(SearchWindowLabel, ws[i].start, now)
      by {
        if r.Some? {
          var k :| 0 <= k < |ws[1..]| && Utc(ws[1..][k].start) < now
            && (forall j | 0 <= j < k :: Utc(ws[1..][j].start) >= now)
            && r.value == TimeWindowInPast(SearchWindowLabel, ws[1..][k].start, now);
          assert ws[k + 1] == ws[1..][k];
          forall j | 0 <= j < k + 1
            ensures Utc(ws[j].start) >= now
          {
            if j > 0 { assert ws[j] == ws[1..][j - 1]; }
          }
        }
      }
      r
  }

  /**
   * The error `SwapOffer.create` raises, if any: every window must start at
   * or after `now`; the let window is checked first, then the search windows
   * in order, and the first offending window is reported.
   */
  function PastWindowError(letWindow: TimeWindow, searchWindows: seq<TimeWindow>, now: int): (r: Option<Error>)
    ensures r.None? <==> Utc(letWindow.start) >= now && forall i | 0 <= i < |searchWindows| :: Utc(searchWindows[i].start) >= now
    ensures Utc(letWindow.start) < now ==> r == Some(TimeWindowInPast(LetWindowLabel, letWindow.start, now))
    ensures Utc(letWindow.start) >= now ==> r == FirstPastSearch(searchWindows, now)
  {
    if EnsureFuture(letWindow, now, LetWindowLabel).Some? then EnsureFuture(letWindow, now, LetWindowLabel)
    else FirstPastSearch(searchWindows, now)
  }

  class SwapOffer {
    const id: nat
    const requester: Participant
    const scheduleId: string
    const letWindow: TimeWindow
    const searchWindows: seq<TimeWindow>
    const createdAt: int

    var status: OfferStatus
    var availableWindows: seq<TimeWindow>
    var directAgreements: seq<DirectSwap>
    var ringCandidates: seq<RingCandidate>
    var ringSwaps: seq<RingSwap>
    var outstandingNeeds: seq<WindowNeed>
    var partialCommitments: seq<RingSwapCommitment>

    function View(): OfferView
      reads this
    {
      OfferView(id, requester, scheduleId, letWindow, searchWindows, createdAt, status, availableWindows,
                directAgreements, ringCandidates, ringSwaps, outstandingNeeds, partialCommitments)
    }

    /**
     * `__init__` with the pydantic defaults: an empty `available_windows`
     * becomes a copy of the search windows, and an empty `outstanding_needs`
     * becomes the single need for the let window created by the offer.
     */
    constructor (id: nat, requester: Participant, scheduleId: string, letWindow: TimeWindow,
                 searchWindows: seq<TimeWindow>, createdAt: int,
                 availableWindows: seq<TimeWindow>, outstandingNeeds: seq<WindowNeed>)
      ensures View() == OfferView(id, requester, scheduleId, letWindow, searchWindows, createdAt, Active,
                                  if availableWindows == [] then searchWindows else availableWindows,
                                  [], [], [],
                                  if outstandingNeeds == [] then [WindowNeed(requester, letWindow, true)] else outstandingNeeds,
                                  [])
    {
      this.id := id;
      this.requester := requester;
      this.scheduleId := scheduleId;
      this.letWindow := letWindow;
      this.searchWindows := searchWindows;
      this.createdAt := createdAt;
      status := Active;
      this.availableWindows := availableWindows;
      directAgreements := [];
      ringCandidates := [];
      ringSwaps := [];
      this.outstandingNeeds := outstandingNeeds;
      partialCommitments := [];
      new;
      if this.availableWindows == [] {
        this.availableWindows := searchWindows;
      }
      if this.outstandingNeeds == [] {
        this.outstandingNeeds := [WindowNeed(requester, letWindow, true)];
      }
    }

    method AddAvailableWindows(windows: seq<TimeWindow>)
      modifies this`availableWindows
      ensures View() == old(View()).(availableWindows := AddAvailable(old(availableWindows), windows))
    {
      for i := 0 to |windows|
        invariant availableWindows == AddAvailable(old(availableWindows), windows[..i])
      {
        assert windows[..i + 1][..i] == windows[..i];
        var present := HasInterval(availableWindows, windows[i]);
        if !present {
          availableWindows := availableWindows + [windows[i]];
        }
      }
      assert windows[..|windows|] == windows;
    }

    method FindNeed(window: TimeWindow) returns (r: Option<WindowNeed>)
      ensures r == MatchingNeed(outstandingNeeds, window)
    {
      for i := 0 to |outstandingNeeds|
        invariant MatchingNeed(outstandingNeeds, window) == MatchingNeed(outstandingNeeds[i..], window)
      {
        if SameInterval(outstandingNeeds[i].window, window) {
          return Some(outstandingNeeds[i]);
        }
        assert outstandingNeeds[i..][1..] == outstandingNeeds[i + 1..];
      }
      return None;
    }

    method ResolveNeed(window: TimeWindow) returns (r: Option<WindowNeed>)
      modifies this`outstandingNeeds
      ensures r == MatchingNeed(old(outstandingNeeds), window)
      ensures View() == if r.Some? then NeedsResolved(old(View()), window) else old(View())
    {
      r := FindNeed(window);
      if r.Some? {
        outstandingNeeds := WithoutInterval(outstandingNeeds, window);
      }
    }

    method AddCommitment(coverer: Participant, need: WindowNeed) returns (c: RingSwapCommitment)
      modifies this`partialCommitments
      ensures c == RingSwapCommitment(coverer, need.owner, need.window)
      ensures View() == CommitmentAdded(old(View()), c)
    {
      c := RingSwapCommitment(coverer, need.owner, need.window);
      partialCommitments := partialCommitments + [c];
    }

    method RecordDirectSwap(participant: Participant, swapWindow: TimeWindow) returns (swap: DirectSwap)
      modifies this`directAgreements, this`status, this`outstandingNeeds, this`partialCommitments
      ensures swap == DirectSwap(participant, letWindow, swapWindow)
      ensures View() == DirectSwapRecorded(old(View()), swap)
    {
      swap := DirectSwap(participant, letWindow, swapWindow);
      directAgreements := directAgreements + [swap];
      status := Fulfilled;
      outstandingNeeds := [];
      partialCommitments := [];
    }

    /** `created_at` of the candidate comes from the clock, here the parameter `now`. */
    method RecordRingCandidate(participant: Participant, needsWindows: seq<TimeWindow>, now: int)
      returns (candidate: RingCandidate)
      modifies this`ringCandidates, this`availableWindows, this`outstandingNeeds
      ensures candidate == RingCandidate(participant, letWindow, needsWindows, now)
      ensures View() == RingCandidateRecorded(old(View()), candidate)
    {
      candidate := RingCandidate(participant, letWindow, needsWindows, now);
      ringCandidates := ringCandidates + [candidate];
      AddAvailableWindows(candidate.needsWindows);
      outstandingNeeds := outstandingNeeds + NeedsFor(participant, needsWindows);
    }

    method RecordRingSwap(ring: RingSwap) returns (r: RingSwap)
      modifies this`ringSwaps, this`status, this`outstandingNeeds, this`partialCommitments
      ensures r == ring
      ensures View() == RingSwapRecorded(old(View()), ring)
    {
      ringSwaps := ringSwaps + [ring];
      status := Fulfilled;
      outstandingNeeds := [];
      partialCommitments := [];
      r := ring;
    }

    predicate IsActive()
      reads this
    {
      status == Active
    }

    method Cancel()
      modifies this`status
      ensures View() == old(View()).(status := Cancelled)
    {
      status := Cancelled;
    }

    /**
     * `SwapOffer.create`: every window must start at or after `now`, the let
     * window checked first and then the search windows in order; the first
     * offending window is reported. The id and the creation time, which the
     * source draws from `uuid4` and the clock, are parameters.
     */
    static method Create(id: nat, requester: Participant, scheduleId: string, letWindow: TimeWindow,
                         searchWindows: seq<TimeWindow>, now: int, createdAt: int)
      returns (r: Result<SwapOffer, Error>)
      ensures r.Failure? <==> PastWindowError(letWindow, searchWindows, now).Some?
      ensures r.Failure? ==> r.error == PastWindowError(letWindow, searchWindows, now).value
      ensures r.Success? ==> fresh(r.value) && r.value.View() == FreshView(id, requester, scheduleId, letWindow, searchWindows, createdAt)
    {
      var err := EnsureFuture(letWindow, now, LetWindowLabel);
      if err.Some? {
        return Failure(err.value);
      }
      for i := 0 to |searchWindows|
        invariant FirstPastSearch(searchWindows, now) == FirstPastSearch(searchWindows[i..], now)
      {
        assert searchWindows[i..][1..] == searchWindows[i + 1..];
        err := EnsureFuture(searchWindows[i], now, SearchWindowLabel);
        if err.Some? {
          return Failure(err.value);
        }
      }
      var offer := new SwapOffer(id, requester, scheduleId, letWindow, searchWindows, createdAt, [], []);
      return Success(offer);
    }
  }
}
