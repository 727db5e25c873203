/**
 * `InMemoryParticipantDirectory`: participants indexed by lower-cased email
 * and by id.
 */
module Directory {
  import opened Wrappers
  import opened Text
  import opened Models

  /** `_by_email.get(email.lower())`. */
  function LookupEmail(byEmail: map<string, Participant>, email: string): (r: Option<Participant>)
    ensures r.Some? <==> Lower(email) in byEmail
    ensures r.Some? ==> r.value == byEmail[Lower(email)]
  {
    if Lower(email) in byEmail then Some(byEmail[Lower(email)]) else None
  }

  /** Lookups ignore case: emails that lower-case alike find the same entry. */
  lemma LookupIgnoresCase(byEmail: map<string, Participant>, e1: string, e2: string)
    requires Lower(e1) == Lower(e2)
    ensures LookupEmail(byEmail, e1) == LookupEmail(byEmail, e2)
  {
  }

  /** An email whose lower-case form was never used as a key finds nothing. */
  lemma LookupMissing(byEmail: map<string, Participant>, email: string)
    requires forall e | e in byEmail :: e != Lower(email)
    ensures LookupEmail(byEmail, email).None?
  {
  }

  /**
   * After upserting `p`, every spelling of `p`'s email finds `p`, and every
   * other email finds what it found before.
   */
  lemma UpsertThenLookup(byEmail: map<string, Participant>, p: Participant, email: string)
    ensures var after := byEmail[Lower(p.email) := p];
      LookupEmail(after, email) == if Lower(email) == Lower(p.email) then Some(p) else LookupEmail(byEmail, email)
  {
  }

  /** `_ensure_participant`: the participant found for the email, or a new one with that email and `freshId`. */
  function EnsuredParticipant(byEmail: map<string, Participant>, email: string, freshId: nat): (p: Participant)
    ensures LookupEmail(byEmail, email).Some? ==> p == LookupEmail(byEmail, email).value
    ensures LookupEmail(byEmail, email).None? ==> p == Participant(freshId, email, None, None)
  {
    match LookupEmail(byEmail, email)
    case Some(existing) => existing
    case None => Participant(freshId, email, None, None)
  }

  /** The email map `_ensure_participant` leaves behind. */
  function EnsuredEmails(byEmail: map<string, Participant>, email: string, freshId: nat): map<string, Participant>
  {
    if LookupEmail(byEmail, email).Some? then byEmail
    else byEmail[Lower(email) := Participant(freshId, email, None, None)]
  }

  /** The id map `_ensure_participant` leaves behind: a new participant is also indexed under its id. */
  function EnsuredIds(byEmail: map<string, Participant>, byId: map<nat, Participant>, email: string, freshId: nat)
    : (r: map<nat, Participant>)
    ensures LookupEmail(byEmail, email).Some? ==> r == byId
    ensures LookupEmail(byEmail, email).None? ==> freshId in r && r[freshId] == EnsuredParticipant(byEmail, email, freshId)
    ensures forall i | i != freshId :: (i in r <==> i in byId) && (i in r ==> r[i] == byId[i])
  {
    if LookupEmail(byEmail, email).Some? then byId
    else byId[freshId := Participant(freshId, email, None, None)]
  }

  /**
   * Ensuring a participant twice, with whatever fresh ids, gives the same
   * participant the second time and changes nothing more.
   */
  lemma EnsureParticipantTwice(byEmail: map<string, Participant>, email: string, id1: nat, id2: nat)
    ensures var after := EnsuredEmails(byEmail, email, id1);
      && EnsuredParticipant(after, email, id2) == EnsuredParticipant(byEmail, email, id1)
      && EnsuredEmails(after, email, id2) == after
  {
  }

  /** An email that differs up to case finds the participant ensured for it. */
  lemma EnsuredIgnoresCase(byEmail: map<string, Participant>, email: string, other: string, freshId: nat)
    requires Lower(other) == Lower(email)
    ensures LookupEmail(EnsuredEmails(byEmail, email, freshId), other) == Some(EnsuredParticipant(byEmail, email, freshId))
  {
  }

  class InMemoryParticipantDirectory {
    var byEmail: map<string, Participant>
    var byId: map<nat, Participant>

    /** Email keys are the lower-case email of the participant stored there, id keys its id. */
    ghost predicate Valid()
      reads this
    {
      && (forall e | e in byEmail :: e == Lower(byEmail[e].email))
      && (forall i | i in byId :: i == byId[i].id)
    }

    constructor ()
      ensures Valid() && byEmail == map[] && byId == map[]
    {
      byEmail := map[];
      byId := map[];
    }

    /** A hit is always a participant whose email equals the argument up to case. */
    method GetByEmail(email: string) returns (r: Option<Participant>)
      requires Valid()
      ensures r == LookupEmail(byEmail, email)
      ensures r.Some? ==> Lower(r.value.email) == Lower(email)
    {
      var key := Lower(email);
      if key in byEmail {
        r := Some(byEmail[key]);
      } else {
        r := None;
      }
    }

    /**
     * `upsert` returns its argument and indexes it under its lower-case email
     * and its id. A participant previously stored under the same email keeps
     * its id entry when its id differs.
     */
    method Upsert(p: Participant) returns (r: Participant)
      requires Valid()
      modifies this
      ensures Valid()
      ensures r == p
      ensures byEmail == old(byEmail)[Lower(p.email) := p]
      ensures byId == old(byId)[p.id := p]
      ensures forall i | i in old(byId) && i != p.id :: i in byId && byId[i] == old(byId)[i]
    {
      var key := Lower(p.email);
      byEmail := byEmail[key := p];
      byId := byId[p.id := p];
      r := p;
    }
  }
}
