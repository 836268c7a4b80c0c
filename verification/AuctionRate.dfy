/** When the official rate of a bid can rise, and the discipline under which it never does. */
module AuctionRate {
  import opened Options
  import opened Auction
  import opened AuctionInvariant
  import opened AuctionRuns

  // ---------------------------------------------------------------- one step

  /** The owner's direct write asks for more. */
  predicate RaisingWrite(b: Bid, e: Event) {
    && e.op.OpNewPrice?
    && PriceError(b, e.op.requester, e.op.price, e.op.access, e.now).None?
    && WritesDirectly(b, e.op.requester, e.now)
    && e.op.price > b.rate
  }

  /** The last missing accept is cast on an offer above the official rate. */
  predicate RaisingAccept(b: Bid, e: Event) {
    && e.op.OpVote? && e.op.accept
    && VoteError(b, e.op.offerer, e.op.voter, e.now).None?
    && AllAccepted(AcceptedBallot(b, e.op.offerer, e.op.voter))
    && OfferOf(b, e.op.offerer).rate > b.rate
  }

  lemma NewPriceRate(b: Bid, u: UserId, price: real, access: ChatAccess, rows: seq<UserId>, now: int)
    requires OwnerRow(b) && EnumeratesRows(rows, b)
    ensures NewPrice(b, u, price, access, rows, now).bid.rate ==
      if PriceError(b, u, price, access, now).None? && WritesDirectly(b, u, now) then price else b.rate
  {
    NoAutoAccept(b, u, price, access, rows, now);
  }

  lemma VoteRate(b: Bid, offerer: UserId, voter: UserId, accept: bool, now: int)
    ensures VoteOn(b, offerer, voter, accept, now).bid.rate ==
      if VoteError(b, offerer, voter, now).None? && accept && AllAccepted(AcceptedBallot(b, offerer, voter))
      then OfferOf(b, offerer).rate else b.rate
  {
  }

  /** Exactly two kinds of step raise the official rate; expiry never does. */
  lemma RateRisesExactlyWhen(b: Bid, now: int, e: Event)
    requires OwnerRow(b) && Enabled(b, now, e)
    ensures Step(b, e).bid.rate > b.rate <==> RaisingWrite(b, e) || RaisingAccept(b, e)
  {
    if e.op.OpNewPrice? {
      NewPriceRate(b, e.op.requester, e.op.price, e.op.access, e.op.rows, e.now);
      assert Step(b, e) == NewPrice(b, e.op.requester, e.op.price, e.op.access, e.op.rows, e.now);
    } else if e.op.OpVote? {
      VoteRate(b, e.op.offerer, e.op.voter, e.op.accept, e.now);
      assert Step(b, e) == VoteOn(b, e.op.offerer, e.op.voter, e.op.accept, e.now);
    }
  }

  // ---------------------------------------------------------------- whole runs

  /** Fresh offers undercut the official rate, and a later stored offer undercuts every earlier one. */
  predicate Descending(b: Bid, now: int) {
    && (forall u | u in b.participants && HasFreshOffer(b, u, now) :: OfferOf(b, u).rate < b.rate)
    && (forall u, v | u in b.participants && v in b.participants && HasOffer(b, u) && HasOffer(b, v) ::
          OfferOf(b, u).createdRateAt < OfferOf(b, v).createdRateAt ==> OfferOf(b, v).rate < OfferOf(b, u).rate)
  }

  /**
   No offer is placed while an older one lies expired and unresolved, and a direct write neither raises
   the rate nor undercuts a fresh offer. Both can be checked before the call.
   */
  predicate Careful(b: Bid, e: Event) {
    e.op.OpNewPrice? && PriceError(b, e.op.requester, e.op.price, e.op.access, e.now).None? ==>
      if WritesDirectly(b, e.op.requester, e.now) then
        && e.op.price <= b.rate
        && forall u | u in b.participants && HasFreshOffer(b, u, e.now) :: OfferOf(b, u).rate < e.op.price
      else
        forall u | u in b.participants && HasOffer(b, u) :: InWindow(OfferOf(b, u), e.now)
  }

  predicate CarefulRun(b: Bid, events: seq<Event>)
    decreases |events|
  {
    events == [] || (Careful(b, events[0]) && CarefulRun(Step(b, events[0]).bid, events[1..]))
  }

  lemma DescendingWritten(b: Bid, price: real, now: int)
    requires Descending(b, now) && forall u | u in b.participants && HasFreshOffer(b, u, now) :: OfferOf(b, u).rate < price
    ensures Descending(WriteMainRate(b, price, now), now)
  {
    var c := WriteMainRate(b, price, now);
    assert forall v :: HasOffer(c, v) == HasOffer(b, v);
  }

  /** What the guards of an offer have established. */
  lemma OfferGuards(b: Bid, u: UserId, price: real, access: ChatAccess, now: int)
    requires PriceError(b, u, price, access, now).None? && !WritesDirectly(b, u, now)
    ensures u in b.participants && price < b.rate && BelowActiveOffers(b, price, now)
  {
  }

  lemma DescendingNewPrice(b: Bid, u: UserId, price: real, access: ChatAccess, rows: seq<UserId>, now: int)
    requires OwnerRow(b) && Snapshots(b, now) && EnumeratesRows(rows, b) && Descending(b, now)
    requires Careful(b, Event(OpNewPrice(u, price, access, rows), now))
    ensures var c := NewPrice(b, u, price, access, rows, now).bid; Descending(c, now) && c.rate <= b.rate
  {
    if PriceError(b, u, price, access, now).None? {
      if WritesDirectly(b, u, now) {
        DescendingWritten(b, price, now);
      } else {
        var o := Offer(price, now, Snapshot(b, rows, u, now));
        OfferGuards(b, u, price, access, now);
        assert forall v | v in b.participants && HasOffer(b, v) ::
          InWindow(OfferOf(b, v), now) && OfferOf(b, v).createdRateAt <= now;
        DescendingPlaced(b, u, o, now);
        NoAutoAccept(b, u, price, access, rows, now);
        assert NewPrice(b, u, price, access, rows, now).bid == SetOffer(b, u, Some(o));
      }
    }
  }

  lemma DescendingPlaced(b: Bid, u: UserId, o: Offer, now: int)
    requires Descending(b, now) && u in b.participants && o.createdRateAt == now && o.rate < b.rate
    requires forall v | v in b.participants && HasOffer(b, v) ::
      InWindow(OfferOf(b, v), now) && OfferOf(b, v).createdRateAt <= now
    requires BelowActiveOffers(b, o.rate, now)
    ensures Descending(SetOffer(b, u, Some(o)), now)
  {
    var c := SetOffer(b, u, Some(o));
    assert forall v | v != u :: HasOffer(c, v) == HasOffer(b, v);
    assert forall v | v != u && HasOffer(b, v) :: OfferOf(c, v) == OfferOf(b, v);
  }

  /** Dropping offers and re-marking votes keeps the order of the rest. */
  lemma DescendingKept(b: Bid, c: Bid, now: int)
    requires Descending(b, now) && c.rate == b.rate
    requires forall v | HasOffer(c, v) ::
      && HasOffer(b, v)
      && OfferOf(c, v).rate == OfferOf(b, v).rate
      && OfferOf(c, v).createdRateAt == OfferOf(b, v).createdRateAt
    ensures Descending(c, now)
  {
  }

  lemma NoOffers(b: Bid, now: int)
    requires forall v :: !HasOffer(b, v)
    ensures Descending(b, now)
  {
  }

  lemma DescendingReject(b: Bid, offerer: UserId, now: int)
    requires Descending(b, now)
    ensures Descending(ClearOffer(b, offerer), now) && ClearOffer(b, offerer).rate == b.rate
  {
    DescendingKept(b, ClearOffer(b, offerer), now);
  }

  /** A bid with one offer of a bid whose offers descend, or with none. */
  lemma DescendingOnly(b: Bid, c: Bid, offerer: UserId, now: int)
    requires Descending(b, now) && HasOffer(b, offerer) && c.rate == b.rate
    requires forall v | HasOffer(c, v) :: v == offerer
    requires HasOffer(c, offerer) ==>
      && OfferOf(c, offerer).rate == OfferOf(b, offerer).rate
      && OfferOf(c, offerer).createdRateAt == OfferOf(b, offerer).createdRateAt
    ensures Descending(c, now)
  {
    DescendingKept(b, c, now);
  }

  lemma DescendingAccept(b: Bid, offerer: UserId, voter: UserId, now: int)
    requires Descending(b, now) && HasOffer(b, offerer)
    ensures var c := RecordAccept(b, offerer, voter, now); Descending(c, now) && c.rate == b.rate
  {
    OnlyOfferLeft(b, offerer, voter, now);
    DescendingOnly(b, RecordAccept(b, offerer, voter, now), offerer, now);
  }

  lemma DescendingAccepted(b: Bid, offerer: UserId, voter: UserId, now: int)
    requires HasOffer(b, offerer)
    ensures Descending(ClearOffer(WriteMainRate(RecordAccept(b, offerer, voter, now), OfferOf(b, offerer).rate, now), offerer), now)
  {
    var c := RecordAccept(b, offerer, voter, now);
    OnlyOfferLeft(b, offerer, voter, now);
    NoneLeft(c, offerer, OfferOf(b, offerer).rate, now);
    NoOffers(ClearOffer(WriteMainRate(c, OfferOf(b, offerer).rate, now), offerer), now);
  }

  lemma DescendingVote(b: Bid, offerer: UserId, voter: UserId, accept: bool, now: int)
    requires Descending(b, now)
    ensures var c := VoteOn(b, offerer, voter, accept, now).bid; Descending(c, now) && c.rate <= b.rate
  {
    if VoteError(b, offerer, voter, now).None? {
      if accept {
        DescendingAccept(b, offerer, voter, now);
        DescendingAccepted(b, offerer, voter, now);
        assert OfferOf(b, offerer).rate < b.rate;
      } else {
        DescendingReject(b, offerer, now);
      }
    }
  }

  /** An expired offer that is applied is dearer than every fresh one, as those came later. */
  lemma DescendingApplied(b: Bid, offerer: UserId, now: int)
    requires Descending(b, now) && HasOffer(b, offerer) && !IsFresh(OfferOf(b, offerer), now)
    ensures Descending(WriteMainRate(ClearOffer(b, offerer), OfferOf(b, offerer).rate, now), now)
  {
    var c := ClearOffer(b, offerer);
    assert forall v | HasOffer(c, v) :: HasOffer(b, v) && OfferOf(c, v) == OfferOf(b, v);
    DescendingWritten(c.(rate := b.rate), OfferOf(b, offerer).rate, now);
  }

  lemma DescendingResolve(b: Bid, offerer: UserId, now: int)
    requires Descending(b, now)
    ensures var c := Resolve(b, offerer, now).bid; Descending(c, now) && c.rate <= b.rate
  {
    if HasOffer(b, offerer) && !IsFresh(OfferOf(b, offerer), now) {
      if OfferOf(b, offerer).rate <= b.rate {
        DescendingApplied(b, offerer, now);
      } else {
        DescendingKept(b, ClearOffer(b, offerer), now);
      }
    }
  }

  lemma DescendingJoin(b: Bid, u: UserId, hiddenAdmin: bool, access: ChatAccess, now: int)
    requires Descending(b, now)
    ensures var c := Join(b, u, hiddenAdmin, access, now).bid; Descending(c, now) && c.rate == b.rate
  {
    var c := Join(b, u, hiddenAdmin, access, now).bid;
    assert forall v | HasOffer(c, v) :: HasOffer(b, v) && OfferOf(c, v) == OfferOf(b, v);
    DescendingKept(b, c, now);
  }

  lemma DescendingExtend(b: Bid, requester: UserId, target: Option<UserId>, now: int)
    requires Descending(b, now)
    ensures var c := ExtendPlusOne(b, requester, target, now).bid; Descending(c, now) && c.rate == b.rate
  {
    var c := ExtendPlusOne(b, requester, target, now).bid;
    assert forall v | HasOffer(c, v) :: HasOffer(b, v) && OfferOf(c, v) == OfferOf(b, v);
    DescendingKept(b, c, now);
  }

  /** A step on the bid row that leaves rate and rows alone. */
  lemma DescendingRow(b: Bid, c: Bid, now: int)
    requires Descending(b, now) && c.rate == b.rate && c.participants == b.participants
    ensures Descending(c, now)
  {
    assert forall v | HasOffer(c, v) :: HasOffer(b, v) && OfferOf(c, v) == OfferOf(b, v);
    DescendingKept(b, c, now);
  }

  lemma DescendingOther(b: Bid, e: Event)
    requires Descending(b, e.now) && !e.op.OpNewPrice? && !e.op.OpVote? && !e.op.OpResolve?
    ensures var c := Step(b, e).bid; Descending(c, e.now) && c.rate == b.rate
  {
    match e.op
    case OpJoin(u, hidden, access) => DescendingJoin(b, u, hidden, access, e.now);
    case OpExtendBid(u) => DescendingRow(b, ExtendBid(b, u, e.now).bid, e.now);
    case OpExtendPlusOne(u, target) => DescendingExtend(b, u, target, e.now);
    case OpArchive => DescendingRow(b, ArchiveIfIdle(b, e.now).bid, e.now);
  }

  lemma DescendingStep(b: Bid, now: int, e: Event)
    requires Inv(b, now) && Enabled(b, now, e) && Descending(b, now) && Careful(b, e)
    ensures var c := Step(b, e).bid; Descending(c, e.now) && c.rate <= b.rate
  {
    InvLater(b, now, e.now);
    assert Descending(b, e.now);
    if e.op.OpNewPrice? {
      DescendingNewPrice(b, e.op.requester, e.op.price, e.op.access, e.op.rows, e.now);
      assert Step(b, e) == NewPrice(b, e.op.requester, e.op.price, e.op.access, e.op.rows, e.now);
    } else if e.op.OpVote? {
      DescendingVote(b, e.op.offerer, e.op.voter, e.op.accept, e.now);
      assert Step(b, e) == VoteOn(b, e.op.offerer, e.op.voter, e.op.accept, e.now);
    } else if e.op.OpResolve? {
      DescendingResolve(b, e.op.offerer, e.now);
    } else {
      DescendingOther(b, e);
    }
  }

  /** What a careful run keeps. */
  predicate Sound(b: Bid, now: int) {
    Inv(b, now) && Descending(b, now)
  }

  lemma SoundStep(b: Bid, now: int, e: Event)
    requires Sound(b, now) && Enabled(b, now, e) && Careful(b, e)
    ensures Sound(Step(b, e).bid, e.now) && Step(b, e).bid.rate <= b.rate
  {
    InvStep(b, now, e);
    DescendingStep(b, now, e);
  }

  /** In every careful run the official rate never rises, and the discipline can go on. */
  lemma {:induction false} RateNeverRises(b: Bid, now: int, events: seq<Event>)
    requires Sound(b, now) && IsRun(b, now, events) && CarefulRun(b, events)
    ensures Exec(b, events).rate <= b.rate
    ensures Sound(Exec(b, events), EndTime(now, events))
    decreases |events|
  {
    if events != [] {
      var c := Step(b, events[0]).bid;
      SoundStep(b, now, events[0]);
      RateNeverRises(c, events[0].now, events[1..]);
    }
  }

  /** Between any two moments of a careful run of a new bid the rate has not risen. */
  lemma RateNeverRisesBetween(owner: UserId, rate: real, isDoNotBid: bool, start: int, first: seq<Event>, second: seq<Event>)
    requires var b := Created(owner, rate, isDoNotBid, start); IsRun(b, start, first + second) && CarefulRun(b, first + second)
    ensures var b := Created(owner, rate, isDoNotBid, start); Exec(b, first + second).rate <= Exec(b, first).rate <= rate
  {
    var b := Created(owner, rate, isDoNotBid, start);
    InvCreated(owner, rate, isDoNotBid, start);
    SplitRun(b, start, first, second);
    RateNeverRises(b, start, first);
    InvRun(b, start, first);
    RateNeverRises(Exec(b, first), EndTime(start, first), second);
  }

  lemma {:induction false} SplitRun(b: Bid, now: int, first: seq<Event>, second: seq<Event>)
    requires IsRun(b, now, first + second) && CarefulRun(b, first + second)
    ensures IsRun(b, now, first) && CarefulRun(b, first)
    ensures IsRun(Exec(b, first), EndTime(now, first), second) && CarefulRun(Exec(b, first), second)
    ensures Exec(b, first + second) == Exec(Exec(b, first), second)
    decreases |first|
  {
    if first == [] {
      assert first + second == second;
    } else {
      assert (first + second)[1..] == first[1..] + second;
      SplitRun(Step(b, first[0]).bid, first[0].now, first[1..], second);
    }
  }

  // ---------------------------------------------------------------- without the discipline

  /** With no other +1 timer running, a non-owner's offer is put to the owner alone. */
  lemma OwnerAlone(b: Bid, rows: seq<UserId>, offerer: UserId, now: int)
    requires EnumeratesRows(rows, b) && OwnerRow(b) && offerer != b.ownerId
    requires forall u | u in b.participants :: PlusOneRunning(b, u, now) ==> u == offerer
    ensures Snapshot(b, rows, offerer, now) == [Voter(b.ownerId, Pending, 0)]
  {
    PlusOneVotersAre(b, rows, offerer, now);
    var plus := PlusOneVoters(b, rows, offerer, now);
    assert |plus| > 0 ==> PlusOneRunning(b, plus[0].userId, now);
  }

  /** An offer put to the owner alone is finished by the owner's accept. */
  lemma OwnerFinishes(b: Bid, offerer: UserId, now: int)
    requires offerer != b.ownerId && !b.isDoNotBid && HasFreshOffer(b, offerer, now)
    requires OfferOf(b, offerer).votes == [Voter(b.ownerId, Pending, 0)]
    requires forall u | u in b.participants && u != offerer :: !HasOffer(b, u)
    ensures VoteOn(b, offerer, b.ownerId, true, now).bid.rate == OfferOf(b, offerer).rate
  {
    var votes := OfferOf(b, offerer).votes;
    assert FindVoter(votes, b.ownerId) == 0;
    assert AcceptedBallot(b, offerer, b.ownerId) == [Voter(b.ownerId, Accepted, 0)];
  }

  // The story of a rise: the states of the bid between its events.
  ghost function OwnerRowOnly(): Bid { Created("O", 100.0, false, 0) }

  ghost function WithA(): Bid {
    var b := OwnerRowOnly();
    b.(participants := b.participants["A" := Participant(false, 0, 0, None)])
  }

  ghost function WithOfferOfA(): Bid {
    SetOffer(WithA(), "A", Some(Offer(50.0, 0, [Voter("O", Pending, 0)])))
  }

  ghost function WithB(): Bid {
    var b := WithOfferOfA();
    b.(participants := b.participants["B" := Participant(false, 900, 900, None)])
  }

  ghost function WithOfferOfB(): Bid {
    SetOffer(WithB(), "B", Some(Offer(90.0, 900, [Voter("O", Pending, 0)])))
  }

  ghost function WithAResolved(): Bid {
    WriteMainRate(ClearOffer(WithOfferOfB(), "A"), 50.0, 900)
  }

  lemma AOffers(e: Event)
    requires e == Event(OpNewPrice("A", 50.0, Member, ["O", "A"]), 0)
    ensures Enabled(WithA(), 0, e) && Step(WithA(), e).bid == WithOfferOfA()
  {
    var b := WithA();
    assert ActiveOfferers(b, 0) == {};
    OwnerAlone(b, e.op.rows, "A", 0);
  }

  lemma BMayOffer()
    ensures PriceError(WithB(), "B", 90.0, Member, 900).None? && !WritesDirectly(WithB(), "B", 900)
  {
    assert ActiveOfferers(WithB(), 900) == {};
  }

  lemma BOffers(e: Event)
    requires e == Event(OpNewPrice("B", 90.0, Member, ["O", "A", "B"]), 900)
    ensures Enabled(WithB(), 900, e) && Step(WithB(), e).bid == WithOfferOfB()
  {
    BMayOffer();
    OwnerAlone(WithB(), e.op.rows, "B", 900);
  }

  lemma AExpires()
    ensures Resolve(WithOfferOfB(), "A", 900).bid == WithAResolved()
  {
  }

  lemma OwnerAcceptsB()
    ensures VoteOn(WithAResolved(), "B", "O", true, 900).bid.rate == 90.0
  {
    OwnerFinishes(WithAResolved(), "B", 900);
  }

  lemma FirstOffers() returns (events: seq<Event>)
    ensures IsRun(OwnerRowOnly(), 0, events) && EndTime(0, events) == 0
    ensures Exec(OwnerRowOnly(), events) == WithOfferOfA()
    ensures forall i | 0 <= i < |events| :: events[i].op.OpNewPrice? ==> events[i].op.requester != "O"
  {
    var b := OwnerRowOnly();
    var e1 := Event(OpJoin("A", false, Member), 0);
    var e2 := Event(OpNewPrice("A", 50.0, Member, ["O", "A"]), 0);
    RunAppend(b, 0, [], e1);
    assert Step(b, e1).bid == WithA();
    AOffers(e2);
    events := [] + [e1];
    RunAppend(b, 0, events, e2);
    events := events + [e2];
  }

  lemma BothOffers() returns (events: seq<Event>)
    ensures IsRun(OwnerRowOnly(), 0, events) && EndTime(0, events) == 900
    ensures Exec(OwnerRowOnly(), events) == WithOfferOfB()
    ensures forall i | 0 <= i < |events| :: events[i].op.OpNewPrice? ==> events[i].op.requester != "O"
  {
    var b := OwnerRowOnly();
    var e3 := Event(OpJoin("B", false, Member), 900);
    var e4 := Event(OpNewPrice("B", 90.0, Member, ["O", "A", "B"]), 900);
    events := FirstOffers();
    assert Step(WithOfferOfA(), e3).bid == WithB();
    RunAppend(b, 0, events, e3);
    events := events + [e3];
    BOffers(e4);
    RunAppend(b, 0, events, e4);
    events := events + [e4];
  }

  /**
   Without it the rate does rise though the owner never writes directly: A's 50 expires unresolved, B then
   offers 90, A's 50 is applied late, and the owner's accept of B's offer lifts the rate from 50 to 90.
   */
  lemma RateCanRise() returns (b: Bid, early: seq<Event>, last: Event)
    ensures b == Created("O", 100.0, false, 0)
    ensures IsRun(b, 0, early + [last])
    ensures forall i | 0 <= i < |early| :: early[i].op.OpNewPrice? ==> early[i].op.requester != b.ownerId
    ensures !last.op.OpNewPrice?
    ensures Exec(b, early).rate == 50.0 && Exec(b, early + [last]).rate == 90.0
  {
    b := OwnerRowOnly();
    var events := BothOffers();
    var e5 := Event(OpResolve("A"), 900);
    AExpires();
    RunAppend(b, 0, events, e5);
    early := events + [e5];
    last := Event(OpVote("B", "O", true), 900);
    OwnerAcceptsB();
    RunAppend(b, 0, early, last);
  }
}
