/**
 * The exceptions the core raises, as values. Each constructor names the
 * Python exception it stands for.
 */
module Errors {
  import opened Time

  /** Which window `SwapOffer._ensure_future` was checking. */
  datatype WindowLabel = LetWindowLabel | SearchWindowLabel

  datatype Error =
    /** pydantic's ValueError from `TimeWindow.validate_non_empty` (end <= start). */
    | InvalidWindow(start: DateTime, end: DateTime)
    /** `SwapOffer.TimeWindowInPastError`, with the label, the start and the instant of its message. */
    | TimeWindowInPast(which: WindowLabel, start: DateTime, instant: int)
    /** `OfferNotFoundError`. */
    | OfferNotFound(offerId: nat)
    /** `OfferNotActiveError`. */
    | OfferNotActive(offerId: nat)
    /** The ValueError `accept_cover` raises when no outstanding need matches. */
    | NoMatchingNeed
    /** The ValueErrors of `RingSwap.validate_ring_chain`. */
    | RingTooShort
    | RingNotUnique
    /** The RuntimeError of `_require_slack_ports`. */
    | SlackPortsMissing
    /** The TypeError of a `prompt_cover_request` call that leaves out the port's `need_owner` argument. */
    | PromptArgumentMissing
}
