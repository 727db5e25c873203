/**
 * The Slack notification port, modelled as an append-only log of the calls
 * made on it. Each notice carries a snapshot of the offer as it was when the
 * call was made, which is what an implementation of the port gets to read.
 */
module SlackPort {
  import opened Models

  datatype Notice =
    | OfferAnnounced(offer: OfferView)
    | DirectSwapNotified(offer: OfferView, participant: Participant, window: TimeWindow)
    | RingCandidateNotified(offer: OfferView, candidate: Participant)
    | RingCompleted(offer: OfferView)
    | RingUpdated(offer: OfferView)

  class SlackLog {
    var notices: seq<Notice>

    constructor ()
      ensures notices == []
    {
      notices := [];
    }

    method Post(n: Notice)
      modifies this
      ensures notices == old(notices) + [n]
    {
      notices := notices + [n];
    }
  }

  /**
   * The prompt port. Only whether it is configured matters here: the calls
   * made on it are not modelled.
   */
  class PromptPort {
    constructor ()
    {
    }
  }
}
