/** What resolving a set of expired offers one after the other leaves behind, whatever the order. */
module ExpirySweep {
  import opened Options
  import opened Auction

  predicate AllStored(b: Bid, users: set<UserId>) {
    forall u | u in users :: HasOffer(b, u)
  }

  /** `b` with the offers of `users` cleared. */
  function Cleared(b: Bid, users: set<UserId>): Bid {
    b.(participants := map u | u in b.participants ::
      if u in users then b.participants[u].(offer := None) else b.participants[u])
  }

  /** `rate` is the lowest of the bid's own rate and the rates of the offers of `users`. */
  predicate IsLowest(rate: real, b: Bid, users: set<UserId>)
    requires AllStored(b, users)
  {
    && rate <= b.rate
    && (forall u | u in users :: rate <= OfferOf(b, u).rate)
    && (rate == b.rate || exists u | u in users :: rate == OfferOf(b, u).rate)
  }

  predicate SomeApplies(b: Bid, users: set<UserId>)
    requires AllStored(b, users)
  {
    exists u | u in users :: OfferOf(b, u).rate <= b.rate
  }

  /**
   `c` is `b` after the offers of `users` were resolved: they are gone, all else is as before, and if one of
   them was not above the old rate the lowest rate was written, with a fresh card cycle.
   */
  predicate Swept(b: Bid, c: Bid, users: set<UserId>, now: int) {
    && AllStored(b, users)
    && IsLowest(c.rate, b, users)
    && c == if SomeApplies(b, users) then WriteMainRate(Cleared(b, users), c.rate, now) else Cleared(b, users)
  }

  /** The outcome is one bid: the order of the resolvers cannot be seen in it. */
  lemma SweptUnique(b: Bid, c: Bid, d: Bid, users: set<UserId>, now: int)
    requires Swept(b, c, users, now) && Swept(b, d, users, now)
    ensures c == d
  {
    if c.rate != d.rate {
      assert exists u | u in users :: c.rate == OfferOf(b, u).rate || d.rate == OfferOf(b, u).rate;
    }
  }

  lemma SweptNone(b: Bid, now: int)
    ensures Swept(b, b, {}, now)
  {
    assert Cleared(b, {}) == b;
  }

  /** One more resolver: it finds its offer, and accepts or clears it. */
  lemma SweptOneMore(b: Bid, c: Bid, users: set<UserId>, u: UserId, now: int)
    requires Swept(b, c, users, now) && u !in users
    requires HasOffer(b, u) && !IsFresh(OfferOf(b, u), now)
    ensures var r := Resolve(c, u, now);
      && Swept(b, r.bid, users + {u}, now)
      && (r.reply == Done(ExpiredAccepted) || r.reply == Done(ExpiredTooHigh))
  {
    var r := Resolve(c, u, now);
    assert HasOffer(c, u) && OfferOf(c, u) == OfferOf(b, u);
    SweptRate(b, c, users, u, r.bid.rate);
    assert ClearOffer(c, u).participants == Cleared(b, users + {u}).participants;
    if SomeApplies(b, users) {
      var w :| w in users && OfferOf(b, w).rate <= b.rate;
      assert w in users + {u} && SomeApplies(b, users + {u});
    } else {
      assert SomeApplies(b, users + {u}) <==> OfferOf(b, u).rate <= b.rate;
    }
  }

  lemma SweptRate(b: Bid, c: Bid, users: set<UserId>, u: UserId, rate: real)
    requires AllStored(b, users + {u}) && AllStored(b, users) && IsLowest(c.rate, b, users)
    requires rate == if OfferOf(b, u).rate <= c.rate then OfferOf(b, u).rate else c.rate
    ensures IsLowest(rate, b, users + {u})
  {
    if rate == OfferOf(b, u).rate {
      assert u in users + {u};
    } else if rate != b.rate {
      var w :| w in users && rate == OfferOf(b, w).rate;
      assert w in users + {u};
    }
  }
}
