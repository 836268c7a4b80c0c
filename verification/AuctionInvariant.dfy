/**
 What every step of the auction keeps, and hence what holds in every reachable state of a bid.
 */
module AuctionInvariant {
  import opened Options
  import opened Auction

  // ---------------------------------------------------------------- the invariant

  /** Exactly the creator's row is the owner row. */
  predicate OwnerRow(b: Bid) {
    && b.ownerId in b.participants
    && forall u | u in b.participants :: b.participants[u].isOwner <==> u == b.ownerId
  }

  /** A cycle has been extended zero to three times. */
  predicate InCycle(createdAt: int, updatedAt: int) {
    var extended := updatedAt - createdAt;
    extended == 0 || extended == TIMER || extended == 2 * TIMER || extended == 3 * TIMER
  }

  predicate BidClock(b: Bid, now: int) {
    && b.createdAt <= now
    && if b.isArchive then b.updatedAt <= now && b.updatedAt - b.createdAt > ARCHIVE_IDLE
       else InCycle(b.createdAt, b.updatedAt)
  }

  predicate PlusOneClock(p: Participant, now: int) {
    && p.createdAt <= now
    && InCycle(p.createdAt, p.updatedAt)
  }

  predicate PlusOneClocks(b: Bid, now: int) {
    forall u | u in b.participants :: PlusOneClock(b.participants[u], now)
  }

  predicate DistinctVoters(votes: seq<Voter>) {
    forall i, j | 0 <= i < j < |votes| :: votes[i].userId != votes[j].userId
  }

  /** The entry's +1 cycle is the voter's current one or an earlier one; the owner has none. */
  predicate VoterKnown(b: Bid, entry: Voter) {
    && entry.vote != Rejected
    && entry.userId in b.participants
    && if entry.userId == b.ownerId then entry.plusOneCreatedAt == 0
       else entry.plusOneCreatedAt <= b.participants[entry.userId].createdAt
  }

  /** The snapshot of `offerer`'s offer: never empty, no duplicates, not the offerer, always the owner. */
  predicate SnapshotOk(b: Bid, offerer: UserId, o: Offer) {
    && |o.votes| > 0
    && DistinctVoters(o.votes)
    && !Includes(o.votes, offerer)
    && (offerer != b.ownerId ==> Includes(o.votes, b.ownerId))
    && forall i | 0 <= i < |o.votes| :: VoterKnown(b, o.votes[i])
  }

  predicate Snapshots(b: Bid, now: int) {
    forall u | u in b.participants && HasOffer(b, u) ::
      OfferOf(b, u).createdRateAt <= now && SnapshotOk(b, u, OfferOf(b, u))
  }

  predicate AnyAccepted(votes: seq<Voter>) {
    exists i | 0 <= i < |votes| :: votes[i].vote == Accepted
  }

  /** At most one stored offer holds an accept. */
  predicate OneAccepted(b: Bid) {
    forall u, v | u in b.participants && v in b.participants && HasOffer(b, u) && HasOffer(b, v) ::
      AnyAccepted(OfferOf(b, u).votes) && AnyAccepted(OfferOf(b, v).votes) ==> u == v
  }

  predicate AtMostThree(b: Bid, now: int) {
    |ActiveOfferers(b, now)| <= MAX_ACTIVE_OFFERS
  }

  /** Offers of the window have distinct rates and a later one is strictly cheaper. */
  predicate PriceLadder(b: Bid, now: int) {
    forall u, v | u in b.participants && v in b.participants && u != v
                  && HasActiveOffer(b, u, now) && HasActiveOffer(b, v, now) ::
      && OfferOf(b, u).rate != OfferOf(b, v).rate
      && (OfferOf(b, u).createdRateAt < OfferOf(b, v).createdRateAt ==> OfferOf(b, v).rate < OfferOf(b, u).rate)
  }

  predicate DoNotBidEmpty(b: Bid) {
    b.isDoNotBid ==> forall u | u in b.participants :: !HasOffer(b, u) && !IsPlusOne(b, u)
  }

  predicate Inv(b: Bid, now: int) {
    && OwnerRow(b)
    && BidClock(b, now)
    && PlusOneClocks(b, now)
    && Snapshots(b, now)
    && OneAccepted(b)
    && AtMostThree(b, now)
    && PriceLadder(b, now)
    && DoNotBidEmpty(b)
  }

  // ---------------------------------------------------------------- counting

  lemma SubsetSize<T>(a: set<T>, b: set<T>)
    requires a <= b
    ensures |a| <= |b|
  {
    assert b == a + (b - a);
  }

  /** Offers only leave the window when no new one is placed. */
  lemma FewerActive(b: Bid, now: int, c: Bid, later: int)
    requires AtMostThree(b, now)
    requires ActiveOfferers(c, later) <= ActiveOfferers(b, now)
    ensures AtMostThree(c, later)
  {
    SubsetSize(ActiveOfferers(c, later), ActiveOfferers(b, now));
  }

  // ---------------------------------------------------------------- the passing of time

  lemma InvLater(b: Bid, now: int, later: int)
    requires Inv(b, now) && now <= later
    ensures Inv(b, later)
  {
    assert ActiveOfferers(b, later) <= ActiveOfferers(b, now);
    FewerActive(b, now, b, later);
  }

  // ---------------------------------------------------------------- what each update keeps

  /** Dropping offers keeps everything. */
  lemma InvFewerOffers(b: Bid, c: Bid, now: int)
    requires Inv(b, now)
    requires c == b.(participants := c.participants) && c.participants.Keys == b.participants.Keys
    requires forall u | u in b.participants ::
      c.participants[u] == b.participants[u] || c.participants[u] == b.participants[u].(offer := None)
    ensures Inv(c, now)
  {
    assert forall u | HasOffer(c, u) :: HasOffer(b, u) && OfferOf(c, u) == OfferOf(b, u);
    assert ActiveOfferers(c, now) <= ActiveOfferers(b, now);
    FewerActive(b, now, c, now);
  }

  lemma InvClearOffer(b: Bid, u: UserId, now: int)
    requires Inv(b, now)
    ensures Inv(ClearOffer(b, u), now)
  {
    InvFewerOffers(b, ClearOffer(b, u), now);
  }

  lemma InvClearOtherOffers(b: Bid, u: UserId, now: int)
    requires Inv(b, now)
    ensures Inv(ClearOtherOffers(b, u), now)
  {
    InvFewerOffers(b, ClearOtherOffers(b, u), now);
  }

  /** Changing the bid row alone keeps everything but its own clock. */
  lemma InvBidRow(b: Bid, c: Bid, now: int)
    requires Inv(b, now)
    requires c.ownerId == b.ownerId && c.isDoNotBid == b.isDoNotBid && c.participants == b.participants
    requires BidClock(c, now)
    ensures Inv(c, now)
  {
    assert forall u :: HasOffer(c, u) == HasOffer(b, u);
    assert ActiveOfferers(c, now) == ActiveOfferers(b, now);
    assert Snapshots(c, now) by {
      forall u | u in c.participants && HasOffer(c, u)
        ensures OfferOf(c, u).createdRateAt <= now && SnapshotOk(c, u, OfferOf(c, u))
      {
        assert SnapshotOk(b, u, OfferOf(b, u));
      }
    }
  }

  /** Changing the stamps of one +1 row keeps everything, if they stay in cycle and do not go back. */
  lemma InvStamps(b: Bid, u: UserId, p: Participant, now: int)
    requires Inv(b, now) && IsPlusOne(b, u)
    requires p.isOwner == false && p.offer == b.participants[u].offer
    requires PlusOneClock(p, now) && b.participants[u].createdAt <= p.createdAt
    ensures Inv(b.(participants := b.participants[u := p]), now)
  {
    var c := b.(participants := b.participants[u := p]);
    assert forall v :: HasOffer(c, v) == HasOffer(b, v);
    assert forall v | HasOffer(b, v) :: OfferOf(c, v) == OfferOf(b, v);
    assert ActiveOfferers(c, now) == ActiveOfferers(b, now);
    forall v | v in c.participants && HasOffer(c, v)
      ensures SnapshotOk(c, v, OfferOf(c, v))
    {
      assert SnapshotOk(b, v, OfferOf(b, v));
      forall i | 0 <= i < |OfferOf(c, v).votes| ensures VoterKnown(c, OfferOf(c, v).votes[i]) {
        assert VoterKnown(b, OfferOf(b, v).votes[i]);
      }
    }
  }

  lemma InvRestart(b: Bid, u: UserId, now: int)
    requires Inv(b, now)
    ensures Inv(RestartPlusOne(b, u, now), now)
  {
    if IsPlusOne(b, u) {
      InvStamps(b, u, b.participants[u].(createdAt := now, updatedAt := now), now);
    }
  }

  lemma InvNewRow(b: Bid, u: UserId, now: int)
    requires Inv(b, now) && u !in b.participants && !b.isDoNotBid
    ensures Inv(b.(participants := b.participants[u := Participant(false, now, now, None)]), now)
  {
    var c := b.(participants := b.participants[u := Participant(false, now, now, None)]);
    assert forall v :: HasOffer(c, v) == HasOffer(b, v);
    assert forall v | HasOffer(b, v) :: OfferOf(c, v) == OfferOf(b, v);
    assert ActiveOfferers(c, now) == ActiveOfferers(b, now);
    forall v | v in c.participants && HasOffer(c, v)
      ensures SnapshotOk(c, v, OfferOf(c, v))
    {
      assert SnapshotOk(b, v, OfferOf(b, v));
      forall i | 0 <= i < |OfferOf(c, v).votes| ensures VoterKnown(c, OfferOf(c, v).votes[i]) {
        assert VoterKnown(b, OfferOf(b, v).votes[i]);
      }
    }
  }

  // ---------------------------------------------------------------- the snapshot of a new offer

  /** The +1 voters are distinct users with a running timer, other than the offerer, each with a pending vote. */
  lemma {:induction false} PlusOneVotersAre(b: Bid, rows: seq<UserId>, offerer: UserId, now: int)
    requires forall i, j :: 0 <= i < j < |rows| ==> rows[i] != rows[j]
    ensures var votes := PlusOneVoters(b, rows, offerer, now);
      && DistinctVoters(votes)
      && (forall i | 0 <= i < |votes| ::
            && votes[i].userId in rows
            && votes[i].userId != offerer
            && PlusOneRunning(b, votes[i].userId, now)
            && votes[i] == Voter(votes[i].userId, Pending, b.participants[votes[i].userId].createdAt))
      && (forall u | u in rows && u != offerer && PlusOneRunning(b, u, now) :: Includes(votes, u))
  {
    if rows != [] {
      var u := rows[|rows| - 1];
      var earlier := PlusOneVoters(b, rows[..|rows| - 1], offerer, now);
      var votes := PlusOneVoters(b, rows, offerer, now);
      PlusOneVotersAre(b, rows[..|rows| - 1], offerer, now);
      assert rows == rows[..|rows| - 1] + [u];
      forall v | v in rows && v != offerer && PlusOneRunning(b, v, now) ensures Includes(votes, v) {
        if v == u {
          assert votes[|votes| - 1].userId == v;
        } else {
          assert Includes(earlier, v);
          var i :| 0 <= i < |earlier| && earlier[i].userId == v;
          assert votes[i].userId == v;
        }
      }
    }
  }

  /** The +1 cycle a new snapshot entry of `u` names; the owner has none. */
  function CycleStamp(b: Bid, u: UserId): int {
    if u == b.ownerId || u !in b.participants then 0 else b.participants[u].createdAt
  }

  /**
   The snapshot of a new offer holds exactly the running +1 users and the owner, minus the offerer,
   once each, all pending, whatever the order in which the database returned the rows.
   */
  lemma SnapshotVoters(b: Bid, rows: seq<UserId>, offerer: UserId, now: int)
    requires EnumeratesRows(rows, b) && OwnerRow(b)
    ensures var votes := Snapshot(b, rows, offerer, now);
      && DistinctVoters(votes)
      && (forall i | 0 <= i < |votes| :: votes[i].vote == Pending)
      && (forall i | 0 <= i < |votes| :: votes[i].plusOneCreatedAt == CycleStamp(b, votes[i].userId))
      && (forall u :: Includes(votes, u) <==>
            u != offerer && (u == b.ownerId || PlusOneRunning(b, u, now)))
  {
    PlusOneVotersAre(b, rows, offerer, now);
    var plus := PlusOneVoters(b, rows, offerer, now);
    var votes := Snapshot(b, rows, offerer, now);
    assert !Includes(plus, b.ownerId);
    if b.ownerId != offerer {
      assert votes == plus + [Voter(b.ownerId, Pending, 0)];
      assert votes[|plus|].userId == b.ownerId;
    }
    forall u | u != offerer && (u == b.ownerId || PlusOneRunning(b, u, now)) ensures Includes(votes, u) {
      if u != b.ownerId {
        assert Includes(plus, u);
        var i :| 0 <= i < |plus| && plus[i].userId == u;
        assert votes[i].userId == u;
      }
    }
  }

  /** A non-owner's snapshot always holds the owner, so the branch for an empty one is never taken. */
  lemma NoAutoAccept(b: Bid, u: UserId, price: real, access: ChatAccess, rows: seq<UserId>, now: int)
    requires EnumeratesRows(rows, b) && OwnerRow(b)
    ensures NewPrice(b, u, price, access, rows, now).reply != Done(AutoAccepted)
  {
    SnapshotVoters(b, rows, u, now);
    if u != b.ownerId {
      assert Includes(Snapshot(b, rows, u, now), b.ownerId);
    }
  }

  // ---------------------------------------------------------------- placing an offer

  /** The offer being placed and what its guards established. */
  predicate Placeable(b: Bid, u: UserId, o: Offer, now: int) {
    && u in b.participants && !b.isDoNotBid
    && o.createdRateAt == now
    && |ActiveOfferers(b, now)| < MAX_ACTIVE_OFFERS
    && BelowActiveOffers(b, o.rate, now)
    && SnapshotOk(b, u, o)
    && !AnyAccepted(o.votes)
  }

  lemma PlacedSnapshots(b: Bid, u: UserId, o: Offer, now: int)
    requires Inv(b, now) && Placeable(b, u, o, now)
    ensures var c := SetOffer(b, u, Some(o)); OwnerRow(c) && Snapshots(c, now) && OneAccepted(c) && PlusOneClocks(c, now)
  {
    var c := SetOffer(b, u, Some(o));
    assert forall v | v != u :: HasOffer(c, v) == HasOffer(b, v);
    assert forall v | v != u && HasOffer(b, v) :: OfferOf(c, v) == OfferOf(b, v);
    forall v | v in c.participants && HasOffer(c, v)
      ensures OfferOf(c, v).createdRateAt <= now && SnapshotOk(c, v, OfferOf(c, v))
    {
      assert SnapshotOk(b, v, OfferOf(c, v));
      forall i | 0 <= i < |OfferOf(c, v).votes| ensures VoterKnown(c, OfferOf(c, v).votes[i]) {
        assert VoterKnown(b, OfferOf(c, v).votes[i]);
      }
    }
  }

  lemma PlacedCount(b: Bid, u: UserId, o: Offer, now: int)
    requires u in b.participants && |ActiveOfferers(b, now)| < MAX_ACTIVE_OFFERS
    ensures AtMostThree(SetOffer(b, u, Some(o)), now)
  {
    var c := SetOffer(b, u, Some(o));
    assert ActiveOfferers(c, now) <= ActiveOfferers(b, now) + {u};
    SubsetSize(ActiveOfferers(c, now), ActiveOfferers(b, now) + {u});
  }

  lemma PlacedLadder(b: Bid, u: UserId, o: Offer, now: int)
    requires u in b.participants && PriceLadder(b, now) && o.createdRateAt == now && BelowActiveOffers(b, o.rate, now)
    requires forall v | v in b.participants && HasOffer(b, v) :: OfferOf(b, v).createdRateAt <= now
    ensures PriceLadder(SetOffer(b, u, Some(o)), now)
  {
    var c := SetOffer(b, u, Some(o));
    assert forall v | v != u :: HasOffer(c, v) == HasOffer(b, v);
    assert forall v | v != u && HasOffer(b, v) :: OfferOf(c, v) == OfferOf(b, v);
  }

  lemma PlacedWindow(b: Bid, u: UserId, o: Offer, now: int)
    requires Inv(b, now) && Placeable(b, u, o, now)
    ensures var c := SetOffer(b, u, Some(o)); AtMostThree(c, now) && PriceLadder(c, now)
  {
    PlacedCount(b, u, o, now);
    PlacedLadder(b, u, o, now);
  }

  lemma InvPlaced(b: Bid, u: UserId, o: Offer, now: int)
    requires Inv(b, now) && Placeable(b, u, o, now)
    ensures Inv(SetOffer(b, u, Some(o)), now)
  {
    PlacedSnapshots(b, u, o, now);
    PlacedWindow(b, u, o, now);
  }

  lemma NewSnapshotOk(b: Bid, rows: seq<UserId>, u: UserId, price: real, now: int)
    requires EnumeratesRows(rows, b) && OwnerRow(b)
    requires u == b.ownerId ==> SomePlusOneRunning(b, now)
    ensures SnapshotOk(b, u, Offer(price, now, Snapshot(b, rows, u, now)))
    ensures !AnyAccepted(Snapshot(b, rows, u, now))
  {
    SnapshotVoters(b, rows, u, now);
    var votes := Snapshot(b, rows, u, now);
    if u == b.ownerId {
      var w :| w in b.participants && PlusOneRunning(b, w, now);
      assert Includes(votes, w);
    } else {
      assert Includes(votes, b.ownerId);
    }
    forall i | 0 <= i < |votes| ensures VoterKnown(b, votes[i]) {
      assert Includes(votes, votes[i].userId);
    }
  }

  lemma InvNewPrice(b: Bid, u: UserId, price: real, access: ChatAccess, rows: seq<UserId>, now: int)
    requires Inv(b, now) && EnumeratesRows(rows, b)
    ensures Inv(NewPrice(b, u, price, access, rows, now).bid, now)
  {
    if PriceError(b, u, price, access, now).None? {
      if WritesDirectly(b, u, now) {
        InvBidRow(b, WriteMainRate(b, price, now), now);
      } else {
        NoAutoAccept(b, u, price, access, rows, now);
        NewSnapshotOk(b, rows, u, price, now);
        InvPlaced(b, u, Offer(price, now, Snapshot(b, rows, u, now)), now);
      }
    }
  }

  // ---------------------------------------------------------------- voting

  /** The owner is in every ballot they may use, so no entry is ever appended for them. */
  lemma BallotIsSnapshot(b: Bid, offerer: UserId, voter: UserId, now: int)
    requires Inv(b, now) && HasOffer(b, offerer) && offerer != voter
    ensures BallotOf(b, offerer, voter) == OfferOf(b, offerer).votes
  {
    var votes := OfferOf(b, offerer).votes;
    assert SnapshotOk(b, offerer, OfferOf(b, offerer));
    if voter == b.ownerId {
      assert Includes(votes, voter);
    }
  }

  lemma InvRecordAccept(b: Bid, offerer: UserId, voter: UserId, now: int)
    requires Inv(b, now) && VoteError(b, offerer, voter, now).None?
    ensures Inv(RecordAccept(b, offerer, voter, now), now)
  {
    BallotIsSnapshot(b, offerer, voter, now);
    var o := OfferOf(b, offerer);
    var o' := o.(votes := AcceptedBallot(b, offerer, voter));
    var b1 := ClearOtherOffers(b, offerer);
    InvClearOtherOffers(b, offerer, now);
    assert OfferOf(b1, offerer) == o;
    InvBallot(b1, offerer, o', now);
    var c := SetOffer(b1, offerer, Some(o'));
    InvRestart(c, voter, now);
  }

  /** Marking a vote on the only offer left keeps everything. */
  lemma InvBallot(b: Bid, offerer: UserId, o': Offer, now: int)
    requires Inv(b, now) && HasOffer(b, offerer)
    requires forall v | v in b.participants && v != offerer :: !HasOffer(b, v)
    requires var o := OfferOf(b, offerer);
      && o' == o.(votes := o'.votes) && |o'.votes| == |o.votes|
      && forall i | 0 <= i < |o.votes| :: o'.votes[i] == o.votes[i] || o'.votes[i] == o.votes[i].(vote := Accepted)
    ensures Inv(SetOffer(b, offerer, Some(o')), now)
  {
    var o := OfferOf(b, offerer);
    var c := SetOffer(b, offerer, Some(o'));
    assert SnapshotOk(b, offerer, o);
    assert forall v :: HasOffer(c, v) == HasOffer(b, v);
    assert ActiveOfferers(c, now) == ActiveOfferers(b, now);
    assert forall v :: Includes(o'.votes, v) <==> Includes(o.votes, v) by {
      assert forall i | 0 <= i < |o.votes| :: o'.votes[i].userId == o.votes[i].userId;
    }
    forall i | 0 <= i < |o'.votes| ensures VoterKnown(c, o'.votes[i]) {
      assert VoterKnown(b, o.votes[i]);
    }
    assert SnapshotOk(c, offerer, o');
  }

  lemma InvVote(b: Bid, offerer: UserId, voter: UserId, accept: bool, now: int)
    requires Inv(b, now)
    ensures Inv(VoteOn(b, offerer, voter, accept, now).bid, now)
  {
    if VoteError(b, offerer, voter, now).None? {
      if !accept {
        InvClearOffer(b, offerer, now);
      } else {
        InvRecordAccept(b, offerer, voter, now);
        var recorded := RecordAccept(b, offerer, voter, now);
        var rate := OfferOf(b, offerer).rate;
        InvBidRow(recorded, WriteMainRate(recorded, rate, now), now);
        InvClearOffer(WriteMainRate(recorded, rate, now), offerer, now);
      }
    }
  }

  /** After an accept is recorded, the accepted offer is the only one stored. */
  lemma OnlyOfferLeft(b: Bid, offerer: UserId, voter: UserId, now: int)
    requires HasOffer(b, offerer)
    ensures var c := RecordAccept(b, offerer, voter, now);
      && c.rate == b.rate
      && (forall v :: HasOffer(c, v) <==> v == offerer)
      && OfferOf(c, offerer) == OfferOf(b, offerer).(votes := AcceptedBallot(b, offerer, voter))
  {
  }

  /** When the only offer is accepted, none is left. */
  lemma NoneLeft(c: Bid, offerer: UserId, rate: real, now: int)
    requires forall v :: HasOffer(c, v) <==> v == offerer
    ensures forall v :: !HasOffer(ClearOffer(WriteMainRate(c, rate, now), offerer), v)
  {
    var written := WriteMainRate(c, rate, now);
    var cleared := ClearOffer(written, offerer);
    forall v ensures !HasOffer(cleared, v) {
      assert HasOffer(written, v) == HasOffer(c, v);
    }
  }

  /** Rows keep their role, and a cycle is the old one or starts now. */
  predicate CyclesOldOrNow(b: Bid, c: Bid, now: int) {
    && c.participants.Keys == b.participants.Keys
    && forall u | u in b.participants ::
         var p, q := b.participants[u], c.participants[u];
         q.isOwner == p.isOwner && (q.createdAt == p.createdAt || q.createdAt == now)
  }

  lemma CyclesAfterBallot(b: Bid, offerer: UserId, o: Offer, now: int)
    requires HasOffer(b, offerer)
    ensures CyclesOldOrNow(b, SetOffer(ClearOtherOffers(b, offerer), offerer, Some(o)), now)
  {
  }

  lemma CyclesAfterRestart(b: Bid, c: Bid, u: UserId, now: int)
    requires CyclesOldOrNow(b, c, now)
    ensures CyclesOldOrNow(b, RestartPlusOne(c, u, now), now)
  {
  }

  /** Recording an accept moves at most the voter's +1 cycle, and to now. */
  lemma CyclesAfterAccept(b: Bid, offerer: UserId, voter: UserId, now: int)
    requires HasOffer(b, offerer)
    ensures CyclesOldOrNow(b, RecordAccept(b, offerer, voter, now), now)
  {
    var o := OfferOf(b, offerer).(votes := AcceptedBallot(b, offerer, voter));
    CyclesAfterBallot(b, offerer, o, now);
    CyclesAfterRestart(b, SetOffer(ClearOtherOffers(b, offerer), offerer, Some(o)), voter, now);
  }

  // ---------------------------------------------------------------- the other steps

  lemma InvResolve(b: Bid, offerer: UserId, now: int)
    requires Inv(b, now)
    ensures Inv(Resolve(b, offerer, now).bid, now)
  {
    InvClearOffer(b, offerer, now);
    if HasOffer(b, offerer) {
      InvBidRow(ClearOffer(b, offerer), WriteMainRate(ClearOffer(b, offerer), OfferOf(b, offerer).rate, now), now);
    }
  }

  lemma InvJoin(b: Bid, u: UserId, hiddenAdmin: bool, access: ChatAccess, now: int)
    requires Inv(b, now)
    ensures Inv(Join(b, u, hiddenAdmin, access, now).bid, now)
  {
    InvRestart(b, u, now);
    if u !in b.participants && !b.isDoNotBid {
      InvNewRow(b, u, now);
    }
  }

  lemma CycleExtends(createdAt: int, updatedAt: int, now: int)
    requires InCycle(createdAt, updatedAt) && ExtendError(createdAt, updatedAt, now).None?
    ensures InCycle(createdAt, updatedAt + TIMER)
  {
  }

  /** An archived card is beyond the extension limit, so only a live one can be extended. */
  lemma InvExtendBid(b: Bid, requester: UserId, now: int)
    requires Inv(b, now)
    ensures Inv(ExtendBid(b, requester, now).bid, now)
  {
    if requester == b.ownerId && ExtendError(b.createdAt, b.updatedAt, now).None? {
      InvBidRow(b, b.(updatedAt := b.updatedAt + TIMER), now);
    }
  }

  lemma InvExtendPlusOne(b: Bid, requester: UserId, target: Option<UserId>, now: int)
    requires Inv(b, now)
    ensures Inv(ExtendPlusOne(b, requester, target, now).bid, now)
  {
    var u := if target.Some? then target.value else requester;
    var r := ExtendPlusOne(b, requester, target, now);
    if r.bid != b {
      var p := b.participants[u];
      var p' := p.(updatedAt := p.updatedAt + TIMER);
      assert r.bid == b.(participants := b.participants[u := p']);
      CycleExtends(p.createdAt, p.updatedAt, now);
      InvStamps(b, u, p', now);
    }
  }

  lemma InvArchive(b: Bid, now: int)
    requires Inv(b, now)
    ensures Inv(ArchiveIfIdle(b, now).bid, now)
  {
    if !b.isArchive && b.updatedAt < now - ARCHIVE_IDLE {
      InvBidRow(b, b.(isArchive := true, updatedAt := now), now);
    }
  }

  // ---------------------------------------------------------------- whole runs

  lemma InvCreated(owner: UserId, rate: real, isDoNotBid: bool, now: int)
    ensures Inv(Created(owner, rate, isDoNotBid, now), now)
  {
    var b := Created(owner, rate, isDoNotBid, now);
    assert ActiveOfferers(b, now) == {};
  }

  lemma InvOp(b: Bid, e: Event)
    requires Inv(b, e.now) && Enabled(b, e.now, e)
    ensures Inv(Step(b, e).bid, e.now)
  {
    var c := Step(b, e).bid;
    match e.op {
      case OpJoin(u, hidden, access) =>
        assert c == Join(b, u, hidden, access, e.now).bid;
        InvJoin(b, u, hidden, access, e.now);
      case OpExtendBid(u) =>
        InvExtendBid(b, u, e.now);
      case OpExtendPlusOne(u, target) =>
        InvExtendPlusOne(b, u, target, e.now);
      case OpNewPrice(u, price, access, rows) =>
        assert c == NewPrice(b, u, price, access, rows, e.now).bid;
        InvNewPrice(b, u, price, access, rows, e.now);
      case OpVote(offerer, voter, accept) =>
        assert c == VoteOn(b, offerer, voter, accept, e.now).bid;
        InvVote(b, offerer, voter, accept, e.now);
      case OpResolve(offerer) =>
        InvResolve(b, offerer, e.now);
      case OpArchive =>
        InvArchive(b, e.now);
    }
  }

  /** Every enabled step keeps the invariant. */
  lemma InvStep(b: Bid, now: int, e: Event)
    requires Inv(b, now) && Enabled(b, now, e)
    ensures Inv(Step(b, e).bid, e.now)
  {
    InvLater(b, now, e.now);
    InvOp(b, e);
  }

  lemma {:induction false} InvRun(b: Bid, now: int, events: seq<Event>)
    requires Inv(b, now) && IsRun(b, now, events)
    ensures Inv(Exec(b, events), EndTime(now, events))
    decreases |events|
  {
    if events != [] {
      InvStep(b, now, events[0]);
      InvRun(Step(b, events[0]).bid, events[0].now, events[1..]);
    }
  }

  /** In every run of every bid the invariant holds at the end, hence in every reachable state. */
  lemma InvReachable(owner: UserId, rate: real, isDoNotBid: bool, start: int, events: seq<Event>)
    requires IsRun(Created(owner, rate, isDoNotBid, start), start, events)
    ensures Inv(Exec(Created(owner, rate, isDoNotBid, start), events), EndTime(start, events))
  {
    InvCreated(owner, rate, isDoNotBid, start);
    InvRun(Created(owner, rate, isDoNotBid, start), start, events);
  }
}
