/**
 * `InMemoryOfferRepository`: offers stored by id. It holds references, so an
 * offer mutated after `add` is seen mutated by `get` even before `update`.
 */
module Persistence {
  import opened Models

  class InMemoryOfferRepository {
    var storage: map<nat, SwapOffer>

    /** Every offer is stored under its own id. */
    ghost predicate Valid()
      reads this
    {
      forall k | k in storage :: storage[k].id == k
    }

    constructor ()
      ensures Valid() && storage == map[]
    {
      storage := map[];
    }

    /** `add`: stores the offer under its id, silently replacing an earlier entry; other ids are untouched. */
    method Add(offer: SwapOffer)
      requires Valid()
      modifies this
      ensures Valid()
      ensures storage == old(storage)[offer.id := offer]
    {
      storage := storage[offer.id := offer];
    }

    /** `get`: the stored offer, or null for an id never stored. */
    method Get(offerId: nat) returns (r: SwapOffer?)
      requires Valid()
      ensures offerId in storage ==> r == storage[offerId]
      ensures offerId !in storage ==> r == null
      ensures r != null ==> r.id == offerId
    {
      if offerId in storage {
        r := storage[offerId];
      } else {
        r := null;
      }
    }

    /** `update`: the same write as `add`. */
    method Update(offer: SwapOffer)
      requires Valid()
      modifies this
      ensures Valid()
      ensures storage == old(storage)[offer.id := offer]
    {
      storage := storage[offer.id := offer];
    }
  }

  /** After storing `o`, looking up its id gives `o`; every other id gives what it gave before. */
  lemma StoreThenGet(storage: map<nat, SwapOffer>, o: SwapOffer, offerId: nat)
    ensures var after := storage[o.id := o];
      && o.id in after && after[o.id] == o
      && (offerId != o.id ==> (offerId in after <==> offerId in storage))
      && (offerId != o.id && offerId in storage ==> after[offerId] == storage[offerId])
  {
  }
}
