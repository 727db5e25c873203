/**
 * `MockOpsgenieClient`: an endless rotation of fixed-length slots starting at
 * `baseStart`, slot `k` staffed by `participants[k mod 5]`, plus an overlay of
 * the overrides applied so far. It serves as both the schedule reader and the
 * override writer of the negotiation engine.
 */
module OpsgenieMock {
  import opened Wrappers
  import opened Time
  import opened Models
  import opened OpsgeniePort

  /** A rotation length in microseconds; the source's loops only terminate for a positive one. */
  type Positive = x: int | x > 0 witness 1

  /** The mock's fixed roster of five participants. */
  type Roster = s: seq<Participant> | |s| == 5
    witness seq(5, _ => Participant(0, "", None, None))

  /** The roster the constructor builds, with the ids `uuid4` would draw supplied by the caller. */
  function MockRoster(ids: seq<nat>): (r: Roster)
    requires |ids| == 5
    ensures forall i | 0 <= i < 5 :: r[i].id == ids[i] && r[i].slackUserId.None? && r[i].opsgenieUserId.None?
    ensures r[0].email == "s+1@sloc.de" && r[1].email == "s+2@sloc.de" && r[2].email == "s+3@sloc.de"
    ensures r[3].email == "s+4@sloc.de" && r[4].email == "sebastian@nextpacket.net"
  {
    var emails := ["s+1@sloc.de", "s+2@sloc.de", "s+3@sloc.de", "s+4@sloc.de", "sebastian@nextpacket.net"];
    seq(5, i requires 0 <= i < 5 => Participant(ids[i], emails[i], None, None))
  }

  lemma MulMonotone(a: int, b: int, r: Positive)
    requires a <= b
    ensures a * r <= b * r
  {
    assert b * r - a * r == (b - a) * r;
  }

  /** The start of slot `k`: `base_start + k * rotation`, in the offset of `base_start`. */
  function SlotStart(base: DateTime, rotation: Positive, k: int): (d: DateTime)
    ensures Utc(d) == Utc(base) + k * rotation && d.offset == base.offset
  {
    Shift(base, k * rotation)
  }

  lemma SlotStartNext(base: DateTime, rotation: Positive, k: int)
    ensures Shift(SlotStart(base, rotation, k), rotation) == SlotStart(base, rotation, k + 1)
  {
    assert (k + 1) * rotation == k * rotation + rotation;
  }

  /** Slot `k` of the rotation: `[start_k, start_k + rotation)`, staffed by `roster[k % 5]`. */
  function Slot(base: DateTime, rotation: Positive, roster: Roster, k: int): (a: OnCallAssignment)
    ensures Utc(a.window.start) == Utc(base) + k * rotation
    ensures Duration(a.window) == rotation
  {
    var s := SlotStart(base, rotation, k);
    OnCallAssignment(roster[k % 5], Interval(s, Shift(s, rotation)))
  }

  /**
   * The slot index the back-off loop stops at: the latest `k <= 0` whose slot
   * starts at or before `start` (0 when `base_start` is already at or before it).
   */
  function FirstSlot(base: DateTime, rotation: Positive, start: DateTime): (k: int)
    ensures k <= 0
    ensures Utc(base) + k * rotation <= Utc(start)
    ensures k < 0 ==> Utc(base) + (k + 1) * rotation > Utc(start)
  {
    if Utc(base) <= Utc(start) then 0
    else
      var d := Utc(base) - Utc(start);
      var q := (d - 1) / rotation;
      assert d - 1 == q * rotation + (d - 1) % rotation;
      assert (-(q + 1)) * rotation == -(q * rotation) - rotation;
      assert (-(q + 1) + 1) * rotation == -(q * rotation);
      -(q + 1)
  }

  /** The three conditions of `FirstSlot` determine it. */
  lemma FirstSlotUnique(base: DateTime, rotation: Positive, start: DateTime, k: int)
    requires k <= 0
    requires Utc(base) + k * rotation <= Utc(start)
    requires k < 0 ==> Utc(base) + (k + 1) * rotation > Utc(start)
    ensures k == FirstSlot(base, rotation, start)
  {
    var lo := FirstSlot(base, rotation, start);
    if k < lo {
      MulMonotone(k + 1, lo, rotation);
    } else if lo < k {
      MulMonotone(lo + 1, k, rotation);
    }
  }

  /**
   * What the forward loop emits from slot `k` on: each slot that starts before
   * `end` and whose end lies after `start`, until a slot starts at or after `end`.
   */
  function Rotation(base: DateTime, rotation: Positive, roster: Roster, k: int, start: DateTime, end: DateTime): seq<OnCallAssignment>
    decreases Utc(end) - (Utc(base) + k * rotation)
  {
    if Utc(base) + k * rotation >= Utc(end) then []
    else
      assert (k + 1) * rotation == k * rotation + rotation;
      var slot := Slot(base, rotation, roster, k);
      (if Utc(slot.window.end) > Utc(start) then [slot] else []) + Rotation(base, rotation, roster, k + 1, start, end)
  }

  /** One step of the forward loop. */
  lemma RotationStep(base: DateTime, rotation: Positive, roster: Roster, k: int, start: DateTime, end: DateTime)
    requires Utc(base) + k * rotation < Utc(end)
    ensures var slot := Slot(base, rotation, roster, k);
      Rotation(base, rotation, roster, k, start, end)
      == (if Utc(slot.window.end) > Utc(start) then [slot] else []) + Rotation(base, rotation, roster, k + 1, start, end)
  {
  }

  /** Overrides whose window overlaps `[start, end)`, in the order they were applied. */
  function OverridesWithin(overrides: seq<OnCallAssignment>, start: DateTime, end: DateTime): (r: seq<OnCallAssignment>)
    ensures forall a :: a in r <==> a in overrides && Utc(a.window.end) > Utc(start) && Utc(a.window.start) < Utc(end)
    decreases |overrides|
  {
    if overrides == [] then []
    else
      var init := OverridesWithin(overrides[..|overrides| - 1], start, end);
      var a := overrides[|overrides| - 1];
      assert overrides == overrides[..|overrides| - 1] + [a];
      if Utc(a.window.end) > Utc(start) && Utc(a.window.start) < Utc(end) then init + [a] else init
  }

  /** The overlay keeps the order in which overrides were applied: it distributes over concatenation. */
  lemma {:induction false} OverridesWithinAppend(a: seq<OnCallAssignment>, b: seq<OnCallAssignment>, start: DateTime, end: DateTime)
    ensures OverridesWithin(a + b, start, end) == OverridesWithin(a, start, end) + OverridesWithin(b, start, end)
    decreases |b|
  {
    if b == [] {
      assert a + b == a;
    } else {
      var init := b[..|b| - 1];
      assert (a + b)[..|a + b| - 1] == a + init;
      OverridesWithinAppend(a, init, start, end);
    }
  }

  /** Each overlapping override appears once per application; one that misses the range does not appear. */
  lemma OverridesWithinSingle(o: OnCallAssignment, start: DateTime, end: DateTime)
    ensures OverridesWithin([o], start, end)
            == if Utc(o.window.end) > Utc(start) && Utc(o.window.start) < Utc(end) then [o] else []
  {
    assert [o][..0] == [];
  }

  /** Every emitted rotation entry is a slot of index `k` or later that overlaps `[start, end)`. */
  lemma {:induction false} RotationSound(base: DateTime, rotation: Positive, roster: Roster, k: int, start: DateTime, end: DateTime)
    ensures forall i | 0 <= i < |Rotation(base, rotation, roster, k, start, end)| ::
      var a := Rotation(base, rotation, roster, k, start, end)[i];
      && Duration(a.window) == rotation
      && Utc(a.window.end) > Utc(start) && Utc(a.window.start) < Utc(end)
      && exists j | k <= j :: a == Slot(base, rotation, roster, j)
    decreases Utc(end) - (Utc(base) + k * rotation)
  {
    if Utc(base) + k * rotation < Utc(end) {
      assert (k + 1) * rotation == k * rotation + rotation;
      RotationSound(base, rotation, roster, k + 1, start, end);
    }
  }

  /** Every slot of index `k` or later that overlaps `[start, end)` is emitted. */
  lemma {:induction false} RotationComplete(base: DateTime, rotation: Positive, roster: Roster, k: int, j: int, start: DateTime, end: DateTime)
    requires k <= j
    requires Utc(Slot(base, rotation, roster, j).window.end) > Utc(start)
    requires Utc(Slot(base, rotation, roster, j).window.start) < Utc(end)
    ensures Slot(base, rotation, roster, j) in Rotation(base, rotation, roster, k, start, end)
    decreases j - k
  {
    MulMonotone(k, j, rotation);
    assert (k + 1) * rotation == k * rotation + rotation;
    if k < j {
      RotationComplete(base, rotation, roster, k + 1, j, start, end);
    }
  }

  /** Each assignment's window ends exactly where the next one's begins. */
  predicate Contiguous(rs: seq<OnCallAssignment>)
  {
    forall i | 0 <= i < |rs| - 1 :: rs[i].window.end == rs[i + 1].window.start
  }

  /**
   * Emitted rotation slots are contiguous: each ends where the next begins
   * (the first one emitted starts at slot `k` or later).
   */
  lemma {:induction false} RotationContiguous(base: DateTime, rotation: Positive, roster: Roster, k: int, start: DateTime, end: DateTime)
    ensures Contiguous(Rotation(base, rotation, roster, k, start, end))
    decreases Utc(end) - (Utc(base) + k * rotation)
  {
    if Utc(base) + k * rotation < Utc(end) {
      assert (k + 1) * rotation == k * rotation + rotation;
      RotationContiguous(base, rotation, roster, k + 1, start, end);
      var slot := Slot(base, rotation, roster, k);
      var rest := Rotation(base, rotation, roster, k + 1, start, end);
      if Utc(slot.window.end) > Utc(start) && rest != [] {
        var next := Slot(base, rotation, roster, k + 1);
        assert (k + 2) * rotation == (k + 1) * rotation + rotation;
        assert Utc(next.window.end) > Utc(start);
        assert rest[0] == next;
        SlotStartNext(base, rotation, k);
        assert slot.window.end == next.window.start;
        var rs := Rotation(base, rotation, roster, k, start, end);
        assert rs == [slot] + rest;
        forall i | 0 <= i < |rs| - 1
          ensures rs[i].window.end == rs[i + 1].window.start
        {
          if i == 0 {
            assert rs[1] == rest[0];
          } else {
            var j := i - 1;
            assert rest[j].window.end == rest[j + 1].window.start;
            assert rs[i] == rest[j] && rs[i + 1] == rest[j + 1];
          }
        }
      }
    }
  }

  /** Slots before the one the back-off loop stops at never overlap `[start, ...)`. */
  lemma EarlierSlotsEndBeforeStart(base: DateTime, rotation: Positive, roster: Roster, start: DateTime, j: int)
    requires j < FirstSlot(base, rotation, start)
    ensures Utc(Slot(base, rotation, roster, j).window.end) <= Utc(start)
  {
    MulMonotone(j + 1, FirstSlot(base, rotation, start), rotation);
    assert (j + 1) * rotation == j * rotation + rotation;
  }

  /**
   * The rotation part of `list_oncall` holds every slot of the whole
   * (unbounded) rotation that overlaps `[start, end)`, and nothing else.
   */
  lemma RotationExact(base: DateTime, rotation: Positive, roster: Roster, start: DateTime, end: DateTime, j: int)
    ensures var s := Slot(base, rotation, roster, j);
      s in Rotation(base, rotation, roster, FirstSlot(base, rotation, start), start, end)
      <==> Utc(s.window.end) > Utc(start) && Utc(s.window.start) < Utc(end)
  {
    var lo := FirstSlot(base, rotation, start);
    var s := Slot(base, rotation, roster, j);
    var rs := Rotation(base, rotation, roster, lo, start, end);
    RotationSound(base, rotation, roster, lo, start, end);
    if Utc(s.window.end) > Utc(start) && Utc(s.window.start) < Utc(end) {
      if j < lo {
        EarlierSlotsEndBeforeStart(base, rotation, roster, start, j);
      }
      RotationComplete(base, rotation, roster, lo, j, start, end);
    } else {
      assert forall i | 0 <= i < |rs| :: rs[i] != s;
    }
  }

  /** `current_index % len(participants)` is Python's non-negative modulus: the roster repeats every five slots, backwards too. */
  lemma RosterCycles(base: DateTime, rotation: Positive, roster: Roster, k: int)
    ensures Slot(base, rotation, roster, k + 5).participant == Slot(base, rotation, roster, k).participant
    ensures Slot(base, rotation, roster, k).participant == roster[k % 5]
    ensures Slot(base, rotation, roster, 0).participant == roster[0]
    ensures Slot(base, rotation, roster, -1).participant == roster[4]
  {
  }

  class MockOpsgenieClient {
    const baseStart: DateTime
    const rotation: Positive
    const participants: Roster
    var overrides: seq<OnCallAssignment>

    /**
     * `rotation_hours` hours per slot. The source's default for `base_start`
     * (today at 09:00 from the clock) is left to the caller, and so are the
     * participant ids.
     */
    constructor (baseStart: DateTime, rotationHours: int, ids: seq<nat>)
      requires rotationHours > 0
      requires |ids| == 5
      ensures this.baseStart == baseStart && rotation == rotationHours * MicrosPerHour
      ensures participants == MockRoster(ids) && overrides == []
    {
      this.baseStart := baseStart;
      rotation := rotationHours * MicrosPerHour;
      participants := MockRoster(ids);
      overrides := [];
    }

    /** What `list_oncall` reports for `[start, end)` in the current state. */
    function Schedule(start: DateTime, end: DateTime): seq<OnCallAssignment>
      reads this
    {
      Rotation(baseStart, rotation, participants, FirstSlot(baseStart, rotation, start), start, end)
      + OverridesWithin(overrides, start, end)
    }

    /** `list_oncall`: the rotation slots overlapping `[start, end)`, then the overlapping overrides. */
    method ListOnCall(scheduleId: string, start: DateTime, end: DateTime) returns (assignments: seq<OnCallAssignment>)
      ensures assignments == Rotation(baseStart, rotation, participants, FirstSlot(baseStart, rotation, start), start, end)
                             + OverridesWithin(overrides, start, end)
      ensures assignments == Schedule(start, end)
    {
      assignments := [];

      var slotStart := baseStart;
      var slotIndex := 0;
      while Utc(slotStart) > Utc(start)
        invariant slotIndex <= 0
        invariant slotStart == SlotStart(baseStart, rotation, slotIndex)
        invariant slotIndex < 0 ==> Utc(baseStart) + (slotIndex + 1) * rotation > Utc(start)
        decreases Utc(slotStart) - Utc(start)
      {
        SlotStartNext(baseStart, rotation, slotIndex - 1);
        assert slotIndex * rotation == (slotIndex - 1) * rotation + rotation;
        slotStart := Shift(slotStart, -(rotation as int));
        slotIndex := slotIndex - 1;
      }
      FirstSlotUnique(baseStart, rotation, start, slotIndex);
      ghost var first := slotIndex;

      var currentStart := slotStart;
      var currentIndex := slotIndex;
      while Utc(currentStart) < Utc(end)
        invariant currentStart == SlotStart(baseStart, rotation, currentIndex)
        invariant assignments + Rotation(baseStart, rotation, participants, currentIndex, start, end)
                  == Rotation(baseStart, rotation, participants, first, start, end)
        decreases Utc(end) - Utc(currentStart)
      {
        var currentEnd := Shift(currentStart, rotation);
        var participant := participants[currentIndex % |participants|];
        SlotStartNext(baseStart, rotation, currentIndex);
        RotationStep(baseStart, rotation, participants, currentIndex, start, end);
        assert OnCallAssignment(participant, Interval(currentStart, currentEnd)) == Slot(baseStart, rotation, participants, currentIndex);
        if Utc(currentEnd) > Utc(start) && Utc(currentStart) < Utc(end) {
          assignments := assignments + [OnCallAssignment(participant, Interval(currentStart, currentEnd))];
        }
        currentStart := currentEnd;
        currentIndex := currentIndex + 1;
      }

      var rotationPart := assignments;
      for i := 0 to |overrides|
        invariant assignments == rotationPart + OverridesWithin(overrides[..i], start, end)
      {
        assert overrides[..i + 1][..i] == overrides[..i];
        var o := overrides[i];
        if Utc(o.window.end) > Utc(start) && Utc(o.window.start) < Utc(end) {
          assignments := assignments + [o];
        }
      }
      assert overrides[..|overrides|] == overrides;
    }

    /** `apply_override`: one more entry in the override log, nothing else changes (the schedule id is not used). */
    method ApplyOverride(scheduleId: string, participant: Participant, window: TimeWindow)
      modifies this`overrides
      ensures overrides == old(overrides) + [OnCallAssignment(participant, window)]
    {
      overrides := overrides + [OnCallAssignment(participant, window)];
    }

    /** The port's `apply_overrides`: one `apply_override` per assignment, in order. */
    method ApplyOverrides(scheduleId: string, assignments: seq<OnCallAssignment>)
      modifies this`overrides
      ensures overrides == old(overrides) + assignments
    {
      for i := 0 to |assignments|
        invariant overrides == old(overrides) + assignments[..i]
      {
        assert assignments[..i + 1] == assignments[..i] + [assignments[i]];
        ApplyOverride(scheduleId, assignments[i].participant, assignments[i].window);
      }
      assert assignments[..|assignments|] == assignments;
    }
  }
}
