/** Exactly when the claim of a resolver clears another placement than the one it has read. */
module ExpiryClaims {
  import opened Options
  import opened Auction
  import opened AuctionInvariant
  import opened AuctionEffects
  import opened ExpiryRace
  import opened ExpiryStories

  /** The call has read an offer and not yet claimed. */
  predicate HasRead(s: System, c: CallId) {
    c in s.calls && (s.calls[c].GotOffer? || s.calls[c].Checked?)
  }

  /** The user's stored offer carries the stamp the call has read, and is another placement. */
  predicate Replaced(s: System, c: CallId)
    requires HasRead(s, c)
  {
    var u := s.calls[c].offerer;
    HasOffer(s.bid, u) && OfferOf(s.bid, u).createdRateAt == s.calls[c].stamp && IdOf(s, u) != s.calls[c].read
  }

  /** The claim goes through, and what it clears is not what was read. */
  predicate ClearsAnother(s: System, c: CallId)
    requires c in s.calls && s.calls[c].Checked?
  {
    var claims := AfterClaim(s, c).claims;
    |claims| == |s.claims| + 1 && claims[|s.claims|].cleared != claims[|s.claims|].read
  }

  /** The claim clears another placement if and only if the user has re-placed within the second that was read. */
  lemma ClaimClearsAnotherExactlyWhen(s: System, c: CallId)
    requires SysInv(s) && c in s.calls && s.calls[c].Checked?
    ensures ClearsAnother(s, c) <==> Replaced(s, c)
    ensures ClearsAnother(s, c) ==>
      var x := IdOf(s, s.calls[c].offerer);
      && x < |s.placements| && s.calls[c].read < |s.placements| && s.placements[x] == s.placements[s.calls[c].read]
      && !HasOffer(AfterClaim(s, c).bid, s.calls[c].offerer)
  {
    var u := s.calls[c].offerer;
    assert Names(s, s.calls[c].read, u, s.calls[c].stamp);
    if HasOffer(s.bid, u) {
      assert Names(s, IdOf(s, u), u, OfferOf(s.bid, u).createdRateAt);
    }
  }

  // ---------------------------------------------------------------- from a re-placement to the damage

  function ClaimPath(s: System, c: CallId): seq<Action>
    requires c in s.calls && s.calls[c].GotOffer?
  {
    var due := s.calls[c].stamp + FRESH;
    [Tick(if due > s.now then due else s.now), LookAtClock(c)]
  }

  /**
   Whenever a user has re-placed within the second that a resolver has read, waiting the four minutes, looking and
   claiming clears the newer offer; and if the rate that was read is to be applied, that one becomes official.
   */
  lemma ReplacementIsCleared(s: System, c: CallId)
    requires SysInv(s) && c in s.calls && s.calls[c].GotOffer? && Replaced(s, c)
    ensures Possible(s, ClaimPath(s, c)) && Possible(s, ClaimPath(s, c) + [ClaimOffer(c)])
    ensures var k := s.calls[c]; var t := DoAll(s, ClaimPath(s, c)); var done := DoAll(s, ClaimPath(s, c) + [ClaimOffer(c)]);
      && c in t.calls && t.calls[c].Checked? && ClearsAnother(t, c)
      && done.claims == s.claims + [Claim(c, k.read, IdOf(s, k.offerer))]
      && !HasOffer(done.bid, k.offerer)
      && (k.offerRate <= k.seenRate ==>
            Allowed(done, WriteRate(c)) && Do(done, WriteRate(c)).bid.rate == k.offerRate)
  {
    var k := s.calls[c];
    var path := ClaimPath(s, c);
    DoAppend(s, [], path[0]);
    DoAppend(s, [] + [path[0]], path[1]);
    assert path == [] + [path[0]] + [path[1]];
    var t := DoAll(s, path);
    assert t.bid == s.bid && IdOf(t, k.offerer) == IdOf(s, k.offerer);
    DoAppend(s, path, ClaimOffer(c));
  }

  // ---------------------------------------------------------------- every continuation

  /** The call is still between its read and its claim, with what it has read. */
  predicate SameRead(s: System, t: System, c: CallId)
    requires HasRead(s, c)
  {
    HasRead(t, c) && t.calls[c].offerer == s.calls[c].offerer && t.calls[c].stamp == s.calls[c].stamp && t.calls[c].read == s.calls[c].read
  }

  /** Once the second is over, nothing that happens makes a re-placement of that second. */
  lemma NotReplacedLater(s: System, a: Action, c: CallId)
    requires Allowed(s, a) && HasRead(s, c) && s.calls[c].stamp < s.now && !Replaced(s, c)
    requires HasRead(Do(s, a), c)
    ensures SameRead(s, Do(s, a), c) && Do(s, a).calls[c].stamp < Do(s, a).now && !Replaced(Do(s, a), c)
  {
    if a.Request? {
      RequestPlacesNow(s, a.op, c);
    } else if a.ClaimOffer? {
      ClaimPlacesNothing(s, a.call, c);
    }
  }

  lemma RequestPlacesNow(s: System, op: Op, c: CallId)
    requires HasRead(s, c) && s.calls[c].stamp < s.now && !Replaced(s, c)
    ensures HasRead(AfterRequest(s, op), c) && !Replaced(AfterRequest(s, op), c)
  {
    OffersAfter(s.bid, Event(op, s.now));
    var t := AfterRequest(s, op);
    var u := s.calls[c].offerer;
    assert t.calls == s.calls;
    if HasOffer(t.bid, u) {
      var placed := op.OpNewPrice? && op.requester == u && Step(s.bid, Event(op, s.now)).reply == Done(OfferPlaced);
      assert placed ==> OfferOf(t.bid, u).createdRateAt == s.now;
      assert !placed ==> IdOf(t, u) == IdOf(s, u);
    }
  }

  lemma ClaimPlacesNothing(s: System, d: CallId, c: CallId)
    requires d in s.calls && s.calls[d].Checked? && HasRead(s, c) && !Replaced(s, c) && HasRead(AfterClaim(s, d), c)
    ensures SameRead(s, AfterClaim(s, d), c) && !Replaced(AfterClaim(s, d), c)
  {
    var t := AfterClaim(s, d);
    var u := s.calls[c].offerer;
    assert HasOffer(t.bid, u) ==> HasOffer(s.bid, u) && OfferOf(t.bid, u) == OfferOf(s.bid, u);
  }

  /** A call that has read stays so until it claims, and then never reads again. */
  lemma ReadIsOnce(s: System, a: Action, c: CallId)
    requires Allowed(s, a) && c in s.calls && (s.calls[c].Claimed? || s.calls[c].Finished?)
    ensures var t := Do(s, a); c in t.calls && (t.calls[c].Claimed? || t.calls[c].Finished?)
  {
  }

  lemma ReadOrDone(s: System, a: Action, c: CallId)
    requires Allowed(s, a) && HasRead(s, c)
    ensures var t := Do(s, a); HasRead(t, c) || (c in t.calls && (t.calls[c].Claimed? || t.calls[c].Finished?))
  {
  }

  lemma {:induction false} DoneStaysDone(s: System, actions: seq<Action>, c: CallId)
    requires Possible(s, actions) && c in s.calls && (s.calls[c].Claimed? || s.calls[c].Finished?)
    ensures var t := DoAll(s, actions); c in t.calls && (t.calls[c].Claimed? || t.calls[c].Finished?)
    decreases |actions|
  {
    if actions != [] {
      ReadIsOnce(s, actions[0], c);
      DoneStaysDone(Do(s, actions[0]), actions[1..], c);
    }
  }

  lemma {:induction false} NeverReplaced(s: System, actions: seq<Action>, c: CallId)
    requires Possible(s, actions) && HasRead(s, c) && s.calls[c].stamp < s.now && !Replaced(s, c)
    requires HasRead(DoAll(s, actions), c)
    ensures !Replaced(DoAll(s, actions), c)
    decreases |actions|
  {
    if actions != [] {
      var t := Do(s, actions[0]);
      ReadOrDone(s, actions[0], c);
      if HasRead(t, c) {
        NotReplacedLater(s, actions[0], c);
        NeverReplaced(t, actions[1..], c);
      } else {
        DoneStaysDone(t, actions[1..], c);
      }
    }
  }

  /** After these actions the claim of the call clears another placement than it has read. */
  ghost predicate LeadsToStaleClaim(s: System, actions: seq<Action>, c: CallId) {
    && Possible(s, actions)
    && var t := DoAll(s, actions);
       c in t.calls && t.calls[c].Checked? && ClearsAnother(t, c)
  }

  /**
   Over all continuations, with any requests and any resolvers: once the second that was read is over, some
   continuation makes the call clear another placement if and only if the user has re-placed within that second.
   */
  lemma StaleClaimPossibleExactlyWhen(s: System, c: CallId)
    requires SysInv(s) && HasRead(s, c) && s.calls[c].stamp < s.now
    ensures (exists actions :: LeadsToStaleClaim(s, actions, c)) <==> Replaced(s, c)
  {
    if Replaced(s, c) {
      if s.calls[c].GotOffer? {
        ReplacementIsCleared(s, c);
        assert LeadsToStaleClaim(s, ClaimPath(s, c), c);
      } else {
        ClaimClearsAnotherExactlyWhen(s, c);
        assert LeadsToStaleClaim(s, [], c);
      }
    }
    if actions :| LeadsToStaleClaim(s, actions, c) {
      var t := DoAll(s, actions);
      SysInvDoAll(s, actions);
      ClaimClearsAnotherExactlyWhen(t, c);
      if !Replaced(s, c) {
        NeverReplaced(s, actions, c);
      }
    }
  }

  // ---------------------------------------------------------------- rejected placements

  /** The placement is known, stored for nobody, and neither claimed nor applied. */
  ghost predicate Dead(s: System, id: PlacementId) {
    && id < |s.placements|
    && (forall u | HasOffer(s.bid, u) :: IdOf(s, u) != id)
    && !IsCleared(s, id)
    && id !in s.applied
    && forall c | c in s.calls && s.calls[c].Claimed? :: s.calls[c].cleared != id
  }

  lemma DeadAfterRequest(s: System, op: Op, id: PlacementId)
    requires Dead(s, id)
    ensures Dead(AfterRequest(s, op), id)
  {
    var t := AfterRequest(s, op);
    OffersAfter(s.bid, Event(op, s.now));
    assert t.claims == s.claims && t.applied == s.applied && t.calls == s.calls;
    forall u | HasOffer(t.bid, u) ensures IdOf(t, u) != id {
      var placed := op.OpNewPrice? && op.requester == u && Step(s.bid, Event(op, s.now)).reply == Done(OfferPlaced);
      assert placed ==> IdOf(t, u) == |s.placements|;
      assert !placed ==> IdOf(t, u) == IdOf(s, u) && HasOffer(s.bid, u);
    }
  }

  lemma DeadAfterClaim(s: System, c: CallId, id: PlacementId)
    requires Dead(s, id) && c in s.calls && s.calls[c].Checked?
    ensures Dead(AfterClaim(s, c), id)
  {
    var t := AfterClaim(s, c);
    assert forall u | HasOffer(t.bid, u) :: HasOffer(s.bid, u) && IdOf(t, u) == IdOf(s, u);
    if t.claims != s.claims {
      assert IdOf(s, s.calls[c].offerer) != id;
      assert forall i | 0 <= i < |s.claims| :: t.claims[i] == s.claims[i];
    }
  }

  lemma DeadAfterWrite(s: System, c: CallId, id: PlacementId)
    requires Dead(s, id) && c in s.calls && s.calls[c].Claimed?
    ensures Dead(AfterWrite(s, c), id)
  {
    var t := AfterWrite(s, c);
    assert forall u | HasOffer(t.bid, u) :: HasOffer(s.bid, u) && IdOf(t, u) == IdOf(s, u);
  }

  lemma DeadStays(s: System, a: Action, id: PlacementId)
    requires Dead(s, id) && Allowed(s, a)
    ensures Dead(Do(s, a), id)
  {
    if a.Request? {
      DeadAfterRequest(s, a.op, id);
    } else if a.ClaimOffer? {
      DeadAfterClaim(s, a.call, id);
    } else if a.WriteRate? {
      DeadAfterWrite(s, a.call, id);
    } else {
      var t := Do(s, a);
      assert t.bid == s.bid && t.current == s.current && t.claims == s.claims && t.applied == s.applied;
      assert forall u :: IdOf(t, u) == IdOf(s, u);
    }
  }

  lemma {:induction false} DeadForever(s: System, actions: seq<Action>, id: PlacementId)
    requires Dead(s, id) && Possible(s, actions)
    ensures Dead(DoAll(s, actions), id)
    decreases |actions|
  {
    if actions != [] {
      DeadStays(s, actions[0], id);
      DeadForever(Do(s, actions[0]), actions[1..], id);
    }
  }

  lemma RejectKills(s: System, u: UserId, voter: UserId, accept: bool)
    requires SysInv(s) && Step(s.bid, Event(OpVote(u, voter, accept), s.now)).reply == Done(OfferRejected)
    ensures Dead(AfterRequest(s, OpVote(u, voter, accept)), IdOf(s, u))
  {
    var t := AfterRequest(s, OpVote(u, voter, accept));
    var id := IdOf(s, u);
    assert Step(s.bid, Event(OpVote(u, voter, accept), s.now)) == VoteOn(s.bid, u, voter, accept, s.now);
    RejectEffect(s.bid, u, voter, accept, s.now);
    assert HasOffer(s.bid, u) && Names(s, id, u, OfferOf(s.bid, u).createdRateAt) && !IsCleared(s, id);
    assert t.claims == s.claims && t.applied == s.applied && t.calls == s.calls;
    forall w | HasOffer(t.bid, w) ensures IdOf(t, w) != id {
      assert w != u && HasOffer(s.bid, w) && IdOf(t, w) == IdOf(s, w);
      assert Names(s, IdOf(s, w), w, OfferOf(s.bid, w).createdRateAt);
    }
    assert forall i | 0 <= i < |s.applied| :: IsCleared(s, s.applied[i]);
  }

  /** However many resolvers are under way, a rejected placement is never claimed and never applied. */
  lemma RejectedNeverClaimed(s: System, u: UserId, voter: UserId, accept: bool, actions: seq<Action>)
    requires SysInv(s) && Allowed(s, Request(OpVote(u, voter, accept)))
    requires Step(s.bid, Event(OpVote(u, voter, accept), s.now)).reply == Done(OfferRejected)
    requires Possible(Do(s, Request(OpVote(u, voter, accept))), actions)
    ensures var t := DoAll(Do(s, Request(OpVote(u, voter, accept))), actions); var id := IdOf(s, u);
      && id !in t.applied
      && (forall i | 0 <= i < |t.claims| :: t.claims[i].cleared != id)
      && (forall w | HasOffer(t.bid, w) :: IdOf(t, w) != id)
  {
    RejectKills(s, u, voter, accept);
    DeadForever(Do(s, Request(OpVote(u, voter, accept))), actions, IdOf(s, u));
  }
}
