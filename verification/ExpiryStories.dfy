/** Two things concurrent resolvers do not guarantee, each shown by a run. */
module ExpiryStories {
  import opened Options
  import opened Auction
  import opened AuctionInvariant
  import opened AuctionRate
  import opened ExpiryRace

  lemma {:induction false} DoAppend(s: System, actions: seq<Action>, a: Action)
    requires Possible(s, actions) && Allowed(DoAll(s, actions), a)
    ensures Possible(s, actions + [a])
    ensures DoAll(s, actions + [a]) == Do(DoAll(s, actions), a)
    decreases |actions|
  {
    if actions == [] {
      assert (actions + [a])[1..] == [];
    } else {
      assert (actions + [a])[1..] == actions[1..] + [a];
      DoAppend(Do(s, actions[0]), actions[1..], a);
    }
  }

  // ---------------------------------------------------------------- the minimum is not guaranteed

  lemma {:induction false} DoConcat(s: System, first: seq<Action>, second: seq<Action>)
    requires Possible(s, first) && Possible(DoAll(s, first), second)
    ensures Possible(s, first + second) && DoAll(s, first + second) == DoAll(DoAll(s, first), second)
    decreases |first|
  {
    if first == [] {
      assert first + second == second;
    } else {
      assert (first + second)[1..] == first[1..] + second;
      DoConcat(Do(s, first[0]), first[1..], second);
    }
  }

  function Reading(u: UserId, c: CallId): seq<Action> {
    [ReadRate(c, u), ReadOffer(c), LookAtClock(c)]
  }

  /** The dearer claim, the cheaper claim, the cheaper write, the dearer write. */
  function Claiming(c: CallId, d: CallId): seq<Action> {
    [ClaimOffer(c), ClaimOffer(d), WriteRate(d), WriteRate(c)]
  }

  /** The reads of both calls, and only then their claims and writes. */
  function Crossing(u: UserId, v: UserId, c: CallId, d: CallId): seq<Action> {
    Reading(u, c) + Reading(v, d) + Claiming(c, d)
  }

  /** The stored offer of the user has expired and is not above the official rate. */
  predicate Ripe(s: System, u: UserId) {
    HasOffer(s.bid, u) && !IsFresh(OfferOf(s.bid, u), s.now) && OfferOf(s.bid, u).rate <= s.bid.rate
  }

  /** A resolver that has read a ripe offer and looked at the clock. */
  function Ready(s: System, u: UserId): Call
    requires HasOffer(s.bid, u)
  {
    Checked(u, OfferOf(s.bid, u).rate, OfferOf(s.bid, u).createdRateAt, IdOf(s, u), true)
  }

  lemma ReadsRipe(s: System, u: UserId, c: CallId)
    requires Ripe(s, u) && c !in s.calls
    ensures Possible(s, Reading(u, c)) && DoAll(s, Reading(u, c)) == s.(calls := s.calls[c := Ready(s, u)])
  {
    var all := Reading(u, c);
    DoAppend(s, [], all[0]);
    DoAppend(s, [] + [all[0]], all[1]);
    DoAppend(s, [] + [all[0]] + [all[1]], all[2]);
    assert all == [] + [all[0]] + [all[1]] + [all[2]];
    assert DoAll(s, all).calls == s.calls[c := Ready(s, u)];
  }

  lemma ClaimsReady(s: System, u: UserId, c: CallId)
    requires HasOffer(s.bid, u) && c in s.calls && s.calls[c] == Ready(s, u)
    ensures var t := Do(s, ClaimOffer(c));
      && t.bid == ClearOffer(s.bid, u) && t.applied == s.applied && t.current == s.current && t.now == s.now
      && t.calls == s.calls[c := Claimed(OfferOf(s.bid, u).rate, IdOf(s, u))]
  {
  }

  lemma ClaimsCross(s: System, u: UserId, v: UserId, c: CallId, d: CallId)
    requires u != v && c != d && c in s.calls && d in s.calls && HasOffer(s.bid, u) && HasOffer(s.bid, v)
    requires s.calls[c] == Ready(s, u) && s.calls[d] == Ready(s, v)
    ensures Possible(s, Claiming(c, d)[..3]) && Possible(s, Claiming(c, d))
    ensures var t := DoAll(s, Claiming(c, d)[..3]); var end := DoAll(s, Claiming(c, d));
      && t.bid.rate == OfferOf(s.bid, v).rate && end.bid.rate == OfferOf(s.bid, u).rate
      && end.applied == s.applied + [IdOf(s, v), IdOf(s, u)]
      && end.calls == s.calls[c := Finished(AppliedRate)][d := Finished(AppliedRate)]
      && !HasOffer(end.bid, u) && !HasOffer(end.bid, v)
  {
    var all := Claiming(c, d);
    ClaimsReady(s, u, c);
    var s1 := Do(s, all[0]);
    assert HasOffer(s1.bid, v) && OfferOf(s1.bid, v) == OfferOf(s.bid, v) && IdOf(s1, v) == IdOf(s, v);
    ClaimsReady(s1, v, d);
    var s2 := Do(s1, all[1]);
    DoAppend(s, [], all[0]);
    DoAppend(s, [] + [all[0]], all[1]);
    DoAppend(s, [] + [all[0]] + [all[1]], all[2]);
    assert all[..3] == [] + [all[0]] + [all[1]] + [all[2]];
    DoAppend(s, all[..3], all[3]);
    assert all == all[..3] + [all[3]];
  }

  lemma BothRead(s: System, u: UserId, v: UserId, c: CallId, d: CallId)
    requires c != d && c !in s.calls && d !in s.calls && Ripe(s, u) && Ripe(s, v)
    ensures var looks := Reading(u, c) + Reading(v, d);
      && Possible(s, looks)
      && DoAll(s, looks) == s.(calls := s.calls[c := Ready(s, u)][d := Ready(s, v)])
  {
    ReadsRipe(s, u, c);
    var s1 := s.(calls := s.calls[c := Ready(s, u)]);
    assert IdOf(s1, v) == IdOf(s, v);
    ReadsRipe(s1, v, d);
    DoConcat(s, Reading(u, c), Reading(v, d));
  }

  /**
   Whenever two offers at or below the official rate have expired, two resolvers can cross so that both offers
   are applied and the dearer one stays: the rate is not the minimum, and the last write even raised it.
   */
  lemma CrossingMissesMinimum(s: System, u: UserId, v: UserId, c: CallId, d: CallId)
    requires u != v && c != d && c !in s.calls && d !in s.calls && Ripe(s, u) && Ripe(s, v)
    requires OfferOf(s.bid, v).rate < OfferOf(s.bid, u).rate
    ensures var all := Crossing(u, v, c, d);
      && OnlyResolvers(all) && Possible(s, all) && Possible(s, all[..9])
      && DoAll(s, all[..9]).bid.rate == OfferOf(s.bid, v).rate
      && DoAll(s, all).bid.rate == OfferOf(s.bid, u).rate
      && DoAll(s, all).applied == s.applied + [IdOf(s, v), IdOf(s, u)]
      && DoAll(s, all).calls == s.calls[c := Finished(AppliedRate)][d := Finished(AppliedRate)]
      && !HasOffer(DoAll(s, all).bid, u) && !HasOffer(DoAll(s, all).bid, v)
  {
    var looks := Reading(u, c) + Reading(v, d);
    BothRead(s, u, v, c, d);
    var t := s.(calls := s.calls[c := Ready(s, u)][d := Ready(s, v)]);
    CrossFrom(s, t, looks, u, v, c, d);
    assert Crossing(u, v, c, d)[..9] == looks + Claiming(c, d)[..3];
  }

  lemma CrossFrom(s: System, t: System, looks: seq<Action>, u: UserId, v: UserId, c: CallId, d: CallId)
    requires u != v && c != d && HasOffer(s.bid, u) && HasOffer(s.bid, v) && Possible(s, looks) && DoAll(s, looks) == t
    requires t == s.(calls := s.calls[c := Ready(s, u)][d := Ready(s, v)])
    ensures Possible(s, looks + Claiming(c, d)[..3]) && Possible(s, looks + Claiming(c, d))
    ensures DoAll(s, looks + Claiming(c, d)[..3]).bid.rate == OfferOf(s.bid, v).rate
    ensures var end := DoAll(s, looks + Claiming(c, d));
      && end.bid.rate == OfferOf(s.bid, u).rate
      && end.applied == s.applied + [IdOf(s, v), IdOf(s, u)]
      && end.calls == s.calls[c := Finished(AppliedRate)][d := Finished(AppliedRate)]
      && !HasOffer(end.bid, u) && !HasOffer(end.bid, v)
  {
    assert IdOf(t, u) == IdOf(s, u) && IdOf(t, v) == IdOf(s, v);
    ClaimsCross(t, u, v, c, d);
    DoConcat(s, looks, Claiming(c, d));
    DoConcat(s, looks, Claiming(c, d)[..3]);
    assert t.calls[c := Finished(AppliedRate)][d := Finished(AppliedRate)]
      == s.calls[c := Finished(AppliedRate)][d := Finished(AppliedRate)];
  }

  // ---------------------------------------------------------------- two placements in one second

  /** An offer put to the owner alone is dropped by the owner's reject. */
  lemma OwnerRejects(b: Bid, offerer: UserId, now: int)
    requires offerer != b.ownerId && !b.isDoNotBid && HasFreshOffer(b, offerer, now)
    requires OfferOf(b, offerer).votes == [Voter(b.ownerId, Pending, 0)]
    requires forall u | u in b.participants && u != offerer :: !HasOffer(b, u)
    ensures VoteOn(b, offerer, b.ownerId, false, now).bid == ClearOffer(b, offerer)
  {
    assert FindVoter(OfferOf(b, offerer).votes, b.ownerId) == 0;
  }

  function OfferOfA(price: real): Option<Offer> {
    Some(Offer(price, 0, [Voter("O", Pending, 0)]))
  }

  lemma APlaces(price: real)
    requires price < 100.0
    ensures EnumeratesRows(["O", "A"], WithA())
    ensures NewPrice(WithA(), "A", price, Member, ["O", "A"], 0)
      == Outcome(SetOffer(WithA(), "A", OfferOfA(price)), Done(OfferPlaced))
  {
    assert ActiveOfferers(WithA(), 0) == {};
    OwnerAlone(WithA(), ["O", "A"], "A", 0);
  }

  lemma OwnerDropsOfferOfA(price: real)
    ensures VoteOn(SetOffer(WithA(), "A", OfferOfA(price)), "A", "O", false, 0).bid == WithA()
  {
    var b := SetOffer(WithA(), "A", OfferOfA(price));
    OwnerRejects(b, "A", 0);
    assert ClearOffer(b, "A") == WithA();
  }

  ghost function Start(): System {
    System(WithA(), 0, map[], [], map[], [], [])
  }

  /** The resolver has read A's 50 at the second it was placed. */
  lemma ReadBeforeReject() returns (actions: seq<Action>)
    ensures Possible(Start(), actions)
    ensures var t := DoAll(Start(), actions);
      && t.bid == SetOffer(WithA(), "A", OfferOfA(50.0)) && t.now == 0
      && t.calls == map[0 := GotOffer("A", 100.0, 50.0, 0, 0)]
      && t.placements == [Placement("A", 0)] && t.claims == [] && t.applied == []
  {
    var s := Start();
    var first := Request(OpNewPrice("A", 50.0, Member, ["O", "A"]));
    APlaces(50.0);
    DoAppend(s, [], first);
    DoAppend(s, [] + [first], ReadRate(0, "A"));
    DoAppend(s, [] + [first] + [ReadRate(0, "A")], ReadOffer(0));
    actions := [] + [first] + [ReadRate(0, "A")] + [ReadOffer(0)];
  }

  /** The owner has rejected it and A has placed 40, still in the same second. */
  lemma PlacedAgain() returns (actions: seq<Action>)
    ensures Possible(Start(), actions)
    ensures var t := DoAll(Start(), actions);
      && t.bid == SetOffer(WithA(), "A", OfferOfA(40.0)) && t.now == 0 && IdOf(t, "A") == 1
      && t.calls == map[0 := GotOffer("A", 100.0, 50.0, 0, 0)]
      && t.claims == [] && t.applied == []
  {
    var read := ReadBeforeReject();
    var reject := Request(OpVote("A", "O", false));
    var second := Request(OpNewPrice("A", 40.0, Member, ["O", "A"]));
    OwnerDropsOfferOfA(50.0);
    DoAppend(Start(), read, reject);
    assert DoAll(Start(), read + [reject]).bid == WithA();
    APlaces(40.0);
    DoAppend(Start(), read + [reject], second);
    actions := read + [reject] + [second];
  }

  /**
   A resolver reads A's 50; in the same second the owner rejects it and A places 40; four minutes later the
   resolver's claim clears the 40, because the stamps agree, and the rejected 50 becomes the official rate.
   */
  lemma SameSecondStory() returns (actions: seq<Action>)
    ensures Initial(Start()) && Possible(Start(), actions)
    ensures var t := DoAll(Start(), actions);
      && t.claims == [Claim(0, 0, 1)] && t.applied == [1]
      && t.bid.rate == 50.0 && !HasOffer(t.bid, "A")
  {
    StartIsInitial();
    var again := PlacedAgain();
    DoAppend(Start(), again, Tick(240));
    DoAppend(Start(), again + [Tick(240)], LookAtClock(0));
    DoAppend(Start(), again + [Tick(240)] + [LookAtClock(0)], ClaimOffer(0));
    DoAppend(Start(), again + [Tick(240)] + [LookAtClock(0)] + [ClaimOffer(0)], WriteRate(0));
    actions := again + [Tick(240)] + [LookAtClock(0)] + [ClaimOffer(0)] + [WriteRate(0)];
  }

  lemma StartIsInitial()
    ensures Initial(Start())
  {
    InvCreated("O", 100.0, false, 0);
    InvNewRow(OwnerRowOnly(), "A", 0);
  }
}
