/**
 The bid-rates service over its tables: each method is the request handler or cron step of the same name,
 with its checks and row updates in the order of the source, proved against the steps of module Auction.
 The clock and what other tables say about the requester are parameters.
 */
module BidRates {
  import opened Options
  import opened Auction
  import opened AuctionInvariant
  import opened AuctionVoting
  import opened ExpirySweep

  type BidId = nat

  datatype RateVoter = RateVoter(userId: UserId, offer: Offer, myVote: Vote, canVote: bool)

  datatype BatchCounts = BatchCounts(found: nat, accepted: nat, clearedPriceTooHigh: nat, alreadyCleared: nat, failed: nat)

  type OfferKey = (BidId, UserId)

  /** The offers of non-archived bids that were placed at least four minutes ago, each once, in any order. */
  ghost predicate ExpiredList(expired: seq<OfferKey>, bids: map<BidId, Bid>, now: int) {
    && (forall key :: key in expired <==>
          key.0 in bids && !bids[key.0].isArchive && HasOffer(bids[key.0], key.1)
          && OfferOf(bids[key.0], key.1).createdRateAt <= now - FRESH)
    && forall i, j :: 0 <= i < j < |expired| ==> expired[i] != expired[j]
  }

  function UsersOf(keys: seq<OfferKey>, id: BidId): set<UserId> {
    set key | key in keys && key.0 == id :: key.1
  }

  /** Every bid of the table has had exactly its offers among `keys` resolved. */
  ghost predicate TableSwept(before: map<BidId, Bid>, after: map<BidId, Bid>, keys: seq<OfferKey>, now: int) {
    && after.Keys == before.Keys
    && forall id | id in before :: Swept(before[id], after[id], UsersOf(keys, id), now)
  }

  /** The table and the replies after resolving the offers one after the other. */
  function Sweep(bids: map<BidId, Bid>, keys: seq<OfferKey>, now: int): (map<BidId, Bid>, seq<Reply>) {
    if keys == [] then (bids, [])
    else
      var (table, replies) := Sweep(bids, keys[..|keys| - 1], now);
      var (id, u) := keys[|keys| - 1];
      if id !in table then (table, replies + [Failed(BidNotFound)])
      else
        var r := Resolve(table[id], u, now);
        (table[id := r.bid], replies + [r.reply])
  }

  function CountOf(replies: seq<Reply>, status: Status): nat {
    if replies == [] then 0
    else CountOf(replies[..|replies| - 1], status) + if replies[|replies| - 1] == Done(status) then 1 else 0
  }

  function CountFailed(replies: seq<Reply>): nat {
    if replies == [] then 0
    else CountFailed(replies[..|replies| - 1]) + if replies[|replies| - 1].Failed? then 1 else 0
  }

  function Counted(found: nat, replies: seq<Reply>): BatchCounts {
    BatchCounts(found, CountOf(replies, ExpiredAccepted), CountOf(replies, ExpiredTooHigh),
                CountOf(replies, AlreadyCleared), CountFailed(replies))
  }

  function AddedCounts(a: BatchCounts, b: BatchCounts): BatchCounts {
    BatchCounts(a.found + b.found, a.accepted + b.accepted, a.clearedPriceTooHigh + b.clearedPriceTooHigh,
                a.alreadyCleared + b.alreadyCleared, a.failed + b.failed)
  }

  predicate AllResolved(replies: seq<Reply>) {
    forall k | 0 <= k < |replies| :: replies[k] == Done(ExpiredAccepted) || replies[k] == Done(ExpiredTooHigh)
  }

  ghost predicate TableInv(bids: map<BidId, Bid>, now: int) {
    forall id | id in bids :: Inv(bids[id], now)
  }

  /** The vote of the user's only entry; without an entry it shows as pending. */
  predicate IsVoteOf(votes: seq<Voter>, u: UserId, vote: Vote) {
    if Includes(votes, u)
    then exists i | 0 <= i < |votes| :: votes[i].userId == u && votes[i].vote == vote && forall k | 0 <= k < i :: votes[k].userId != u
    else vote == Pending
  }

  /** One row of the listing: the offer, the viewer's vote on it, and the flag. */
  predicate ListedRow(b: Bid, viewer: UserId, offers: seq<UserId>, offerer: UserId, row: RateVoter, now: int)
    requires forall u | u in offers :: HasOffer(b, u)
  {
    && HasOffer(b, offerer)
    && row.userId == offerer && row.offer == OfferOf(b, offerer)
    && IsVoteOf(OfferOf(b, offerer).votes, viewer, row.myVote)
    && row.canVote == CanVoteFlag(b, viewer, offerer, offers, now)
  }

  lemma MyVoteIs(votes: seq<Voter>, u: UserId, k: nat, vote: Vote)
    requires k == FindVoter(votes, u) && vote == if k < |votes| then votes[k].vote else Pending
    ensures IsVoteOf(votes, u, vote)
  {
    if k < |votes| {
      assert Includes(votes, u);
    }
  }

  class BidRatesService {
    var bids: map<BidId, Bid>

    constructor ()
      ensures bids == map[]
    {
      bids := map[];
    }

    /** The bid, its chat and the owner's participant row are inserted together. */
    method Create(id: BidId, owner: UserId, rate: real, isDoNotBid: bool, now: int)
      requires id !in bids
      modifies this
      ensures bids == old(bids)[id := Created(owner, rate, isDoNotBid, now)]
      ensures old(TableInv(bids, now)) ==> TableInv(bids, now)
    {
      var row := Bid(owner, rate, false, false, isDoNotBid, now, now, map[]);
      bids := bids[id := row];
      bids := bids[id := row.(participants := row.participants[owner := Participant(true, now, now, None)])];
      InvCreated(owner, rate, isDoNotBid, now);
    }

    // -------------------------------------------------------------- row updates

    method UpdateOffer(id: BidId, u: UserId, offer: Option<Offer>)
      requires id in bids && u in bids[id].participants
      modifies this
      ensures bids == old(bids)[id := SetOffer(old(bids)[id], u, offer)]
    {
      var bid := bids[id];
      var row := bid.participants[u];
      bids := bids[id := bid.(participants := bid.participants[u := row.(offer := offer)])];
    }

    method ClearOtherActiveOffers(id: BidId, keep: UserId)
      requires id in bids
      modifies this
      ensures bids == old(bids)[id := ClearOtherOffers(old(bids)[id], keep)]
    {
      var bid := bids[id];
      var rows := map u | u in bid.participants ::
        if u != keep && bid.participants[u].offer.Some? then bid.participants[u].(offer := None) else bid.participants[u];
      assert rows == ClearOtherOffers(bid, keep).participants;
      bids := bids[id := bid.(participants := rows)];
    }

    method WriteMainBidRate(id: BidId, newRate: real, now: int)
      requires id in bids
      modifies this
      ensures bids == old(bids)[id := WriteMainRate(old(bids)[id], newRate, now)]
    {
      bids := bids[id := bids[id].(rate := newRate, isRateChange := true)];
      bids := bids[id := bids[id].(createdAt := now, updatedAt := now, isArchive := false)];
    }

    method ResetPlusOneParticipantTimer(id: BidId, u: UserId, now: int)
      requires id in bids
      modifies this
      ensures bids == old(bids)[id := RestartPlusOne(old(bids)[id], u, now)]
    {
      var bid := bids[id];
      if u !in bid.participants || bid.participants[u].isOwner {
        return;
      }
      var row := bid.participants[u];
      row := row.(createdAt := now);
      row := row.(updatedAt := now);
      bids := bids[id := bid.(participants := bid.participants[u := row])];
    }

    // -------------------------------------------------------------- +1 and timers

    method JoinByChatId(id: BidId, user: UserId, hiddenAdmin: bool, access: ChatAccess, now: int) returns (reply: Reply)
      modifies this
      ensures id !in old(bids) ==> bids == old(bids) && reply == Failed(BidNotFound)
      ensures id in old(bids) ==> var r := Join(old(bids)[id], user, hiddenAdmin, access, now);
        bids == old(bids)[id := r.bid] && reply == r.reply
    {
      if id !in bids {
        return Failed(BidNotFound);
      }
      var bid := bids[id];
      if bid.isDoNotBid {
        return Failed(DoNotBidLoad);
      }
      if bid.ownerId == user {
        if !hiddenAdmin {
          return Failed(OwnerCannotJoin);
        }
      }
      if access != Member {
        return Failed(NotChatMember);
      }
      if user in bid.participants {
        var existing := bid.participants[user];
        if existing.isOwner {
          return Done(OwnerSlot);
        }
        if existing.updatedAt + TIMER > now {
          return Done(AlreadyJoined);
        }
        ResetPlusOneParticipantTimer(id, user, now);
        return Done(Rejoined);
      }
      bids := bids[id := bid.(participants := bid.participants[user := Participant(false, now, now, None)])];
      return Done(Joined);
    }

    method ExtendTime(id: BidId, requester: UserId, now: int) returns (reply: Reply)
      modifies this
      ensures id !in old(bids) ==> bids == old(bids) && reply == Failed(BidNotFound)
      ensures id in old(bids) ==> var r := ExtendBid(old(bids)[id], requester, now);
        bids == old(bids)[id := r.bid] && reply == r.reply
    {
      if id !in bids {
        return Failed(BidNotFound);
      }
      var bid := bids[id];
      if bid.ownerId != requester {
        return Failed(NotBidOwner);
      }
      var alreadyExtended := if bid.updatedAt > bid.createdAt then bid.updatedAt - bid.createdAt else 0;
      if alreadyExtended >= MAX_EXTEND {
        return Failed(ExtendLimitReached);
      }
      if bid.updatedAt + TIMER <= now {
        return Failed(TimerExpired);
      }
      var next := bid.updatedAt + TIMER;
      if next - bid.createdAt > MAX_EXTEND {
        return Failed(ExtendLimitReached);
      }
      bids := bids[id := bid.(updatedAt := next)];
      return Done(Extended);
    }

    method ExtendParticipantTimeByChatId(id: BidId, requester: UserId, target: Option<UserId>, now: int) returns (reply: Reply)
      modifies this
      ensures id !in old(bids) ==> bids == old(bids) && reply == Failed(BidNotFound)
      ensures id in old(bids) ==> var r := ExtendPlusOne(old(bids)[id], requester, target, now);
        bids == old(bids)[id := r.bid] && reply == r.reply
    {
      if id !in bids {
        return Failed(BidNotFound);
      }
      var bid := bids[id];
      var u := match target case Some(t) => t case None => requester;
      if bid.ownerId != requester && u != requester {
        return Failed(NotAllowedToExtend);
      }
      if u !in bid.participants || bid.participants[u].isOwner {
        return Failed(ParticipantNotFound);
      }
      var row := bid.participants[u];
      var alreadyExtended := if row.updatedAt > row.createdAt then row.updatedAt - row.createdAt else 0;
      if alreadyExtended >= MAX_EXTEND {
        return Failed(ExtendLimitReached);
      }
      if row.updatedAt + TIMER <= now {
        return Failed(TimerExpired);
      }
      var next := row.updatedAt + TIMER;
      if next - row.createdAt > MAX_EXTEND {
        return Failed(ExtendLimitReached);
      }
      bids := bids[id := bid.(participants := bid.participants[u := row.(updatedAt := next)])];
      return Done(Extended);
    }

    // -------------------------------------------------------------- prices

    /** The three auction rules every offer must pass, in the order they are checked. */
    method AssertOfferPrice(bid: Bid, requester: UserId, price: real, now: int) returns (error: Option<Error>)
      ensures error == OfferPriceError(bid, requester, price, now)
    {
      if requester in bid.participants {
        match bid.participants[requester].offer
        case None =>
        case Some(offer) =>
          if offer.createdRateAt + FRESH > now {
            return Some(ActiveOfferExists);
          }
      }
      if !(price < bid.rate) {
        return Some(NotBelowBidRate);
      }
      var blocking := set u | u in bid.participants && HasActiveOffer(bid, u, now) && price >= OfferOf(bid, u).rate;
      if blocking != {} {
        assert !BelowActiveOffers(bid, price, now) by {
          var u :| u in blocking;
        }
        return Some(NotBelowActiveOffers);
      }
      assert BelowActiveOffers(bid, price, now) by {
        assert forall u | u in bid.participants && HasActiveOffer(bid, u, now) :: u !in blocking;
      }
      return None;
    }

    /** `rows` is the order in which the database returns the participant rows. */
    method UpdateNewPrice(id: BidId, requester: UserId, price: real, access: ChatAccess, rows: seq<UserId>, now: int)
      returns (reply: Reply)
      modifies this
      ensures id !in old(bids) ==> bids == old(bids) && reply == Failed(BidNotFound)
      ensures id in old(bids) ==> var r := NewPrice(old(bids)[id], requester, price, access, rows, now);
        bids == old(bids)[id := r.bid] && reply == r.reply
    {
      if id !in bids {
        return Failed(BidNotFound);
      }
      var bid := bids[id];
      if bid.isDoNotBid {
        return Failed(DoNotBidLoad);
      }
      if access == NoChat {
        return Failed(NoLinkedChat);
      }
      if access == NotMember {
        return Failed(NotChatMember);
      }
      if |ActiveOfferers(bid, now)| >= MAX_ACTIVE_OFFERS {
        return Failed(TooManyOffers);
      }
      if requester != bid.ownerId {
        if requester !in bid.participants || bid.participants[requester].isOwner {
          return Failed(PlusOneRequired);
        }
        if !(bid.participants[requester].updatedAt + TIMER > now) {
          return Failed(TimerExpired);
        }
        var error := AssertOfferPrice(bid, requester, price, now);
        if error.Some? {
          return Failed(error.value);
        }
        var votes := Snapshot(bid, rows, requester, now);
        // One transaction when nobody could vote: the price is official at once and no offer stays.
        var r := if |votes| == 0
          then Outcome(ClearOffer(WriteMainRate(bid, price, now), requester), Done(AutoAccepted))
          else Outcome(SetOffer(bid, requester, Some(Offer(price, now, votes))), Done(OfferPlaced));
        bids := bids[id := r.bid];
        return r.reply;
      }
      if SomePlusOneRunning(bid, now) {
        var error := AssertOfferPrice(bid, requester, price, now);
        if error.Some? {
          return Failed(error.value);
        }
        if bid.ownerId !in bid.participants || !bid.participants[bid.ownerId].isOwner {
          return Failed(OwnerRowMissing);
        }
        var votes := Snapshot(bid, rows, bid.ownerId, now);
        UpdateOffer(id, bid.ownerId, Some(Offer(price, now, votes)));
        return Done(OfferPlaced);
      }
      WriteMainBidRate(id, price, now);
      return Done(RateChanged);
    }

    // -------------------------------------------------------------- votes

    /** The first offer of the list that `voter` accepted, passing over one offerer. */
    method FindActiveAcceptVoteLock(bid: Bid, offers: seq<UserId>, voter: UserId, exclude: Option<UserId>)
      returns (lock: Option<UserId>)
      requires forall u | u in offers :: HasOffer(bid, u)
      ensures lock.None? <==> forall u | u in offers && Some(u) != exclude :: !HasAccepted(OfferOf(bid, u).votes, voter)
      ensures lock.Some? ==> lock.value in offers && lock != exclude && HasAccepted(OfferOf(bid, lock.value).votes, voter)
      ensures exclude.None? ==> lock == FirstLock(bid, offers, voter)
    {
      var i := 0;
      while i < |offers|
        invariant 0 <= i <= |offers|
        invariant forall k | 0 <= k < i && Some(offers[k]) != exclude :: !HasAccepted(OfferOf(bid, offers[k]).votes, voter)
        invariant exclude.None? ==> FirstLock(bid, offers, voter) == FirstLock(bid, offers[i..], voter)
      {
        if Some(offers[i]) != exclude && HasAccepted(OfferOf(bid, offers[i]).votes, voter) {
          return Some(offers[i]);
        }
        assert offers[i..][1..] == offers[i + 1..];
        i := i + 1;
      }
      return None;
    }

    /** `offers` is the listing of the closed window, newest first. */
    method ListRateVotersByBidId(id: BidId, viewer: UserId, offers: seq<UserId>, now: int)
      returns (found: bool, voters: seq<RateVoter>)
      requires id in bids ==> IsListing(offers, bids[id], now)
      ensures found == (id in bids)
      ensures found ==> |voters| == |offers|
      ensures found ==> forall i | 0 <= i < |offers| :: ListedRow(bids[id], viewer, offers, offers[i], voters[i], now)
    {
      if id !in bids {
        return false, [];
      }
      var bid := bids[id];
      assert forall u | u in offers :: HasOffer(bid, u);
      var lock := FindActiveAcceptVoteLock(bid, offers, viewer, None);
      voters := [];
      var i := 0;
      while i < |offers|
        invariant 0 <= i == |voters| <= |offers|
        invariant forall k | 0 <= k < i :: ListedRow(bid, viewer, offers, offers[k], voters[k], now)
      {
        var row := ListRow(bid, viewer, offers, offers[i], lock, now);
        voters := voters + [row];
        i := i + 1;
      }
      return true, voters;
    }

    /** What one listed offer shows the viewer, given the offer the viewer is locked to. */
    method ListRow(bid: Bid, viewer: UserId, ghost offers: seq<UserId>, offerer: UserId, lock: Option<UserId>, now: int)
      returns (row: RateVoter)
      requires (forall u | u in offers :: HasOffer(bid, u)) && offerer in offers && lock == FirstLock(bid, offers, viewer)
      ensures ListedRow(bid, viewer, offers, offerer, row, now)
    {
      var votes := OfferOf(bid, offerer).votes;
      var k := FindVoter(votes, viewer);
      var myVote := if k < |votes| then votes[k].vote else Pending;
      var eligible := offerer != viewer &&
        (if viewer == bid.ownerId then myVote == Pending else k < |votes| && CanUserVote(bid, votes[k], viewer, now));
      row := RateVoter(offerer, OfferOf(bid, offerer), myVote, eligible && (lock == None || lock == Some(offerer)));
      MyVoteIs(votes, viewer, k, myVote);
    }

    /** `offers` is the result of the query for the offers of the closed window, in any order. */
    method VoteOnOffer(id: BidId, offerer: UserId, voter: UserId, accept: bool, offers: seq<UserId>, now: int)
      returns (reply: Reply)
      requires id in bids ==> forall u :: u in offers <==> HasActiveOffer(bids[id], u, now)
      modifies this
      ensures id !in old(bids) ==> bids == old(bids) && reply.Failed?
      ensures id in old(bids) ==> var r := VoteOn(old(bids)[id], offerer, voter, accept, now);
        bids == old(bids)[id := r.bid] && reply == r.reply
    {
      if offerer == voter {
        return Failed(OwnOffer);
      }
      if id !in bids {
        return Failed(BidNotFound);
      }
      var bid := bids[id];
      if bid.isDoNotBid {
        return Failed(DoNotBidLoad);
      }
      if !HasFreshOffer(bid, offerer, now) {
        return Failed(OfferNotFound);
      }
      var offer := OfferOf(bid, offerer);
      var votes := offer.votes;
      var isBidOwner := voter == bid.ownerId;
      var snapshotIndex := FindVoter(votes, voter);
      if snapshotIndex == |votes| && isBidOwner {
        votes := votes + [Voter(voter, Pending, 0)];
        FoundAtEnd(offer.votes, voter);
      }
      if snapshotIndex == |votes| {
        return Failed(NotEligible);
      }
      var snapshot := votes[snapshotIndex];
      if snapshot.vote != Pending {
        return Failed(AlreadyVoted);
      }
      if !CanUserVote(bid, snapshot, voter, now) {
        return Failed(PlusOneRestarted);
      }
      var lock := FindActiveAcceptVoteLock(bid, offers, voter, Some(offerer));
      assert lock.Some? <==> LockedElsewhere(bid, voter, offerer, now);
      if lock.Some? {
        return Failed(LockedToOtherOffer);
      }
      if !accept {
        UpdateOffer(id, offerer, None);
        return Done(OfferRejected);
      }
      votes := votes[snapshotIndex := snapshot.(vote := Accepted)];
      assert votes == AcceptedBallot(bid, offerer, voter);
      reply := StoreAccept(id, offerer, voter, votes, now);
    }

    /** The updates of an accept: the other offers go, the ballot is stored, the voter's cycle restarts. */
    method StoreAccept(id: BidId, offerer: UserId, voter: UserId, votes: seq<Voter>, now: int) returns (reply: Reply)
      requires id in bids && HasOffer(bids[id], offerer) && votes == AcceptedBallot(bids[id], offerer, voter)
      modifies this
      ensures var b := old(bids)[id]; var recorded := RecordAccept(b, offerer, voter, now);
        && bids == old(bids)[id := if AllAccepted(votes)
             then ClearOffer(WriteMainRate(recorded, OfferOf(b, offerer).rate, now), offerer) else recorded]
        && reply == Done(if AllAccepted(votes) then OfferAccepted else VotePending)
    {
      var bid := bids[id];
      var offer := OfferOf(bid, offerer);
      ClearOtherActiveOffers(id, offerer);
      UpdateOffer(id, offerer, Some(offer.(votes := votes)));
      if voter != bid.ownerId {
        ResetPlusOneParticipantTimer(id, voter, now);
      }
      assert bids[id] == RecordAccept(bid, offerer, voter, now);
      if AllAccepted(votes) {
        WriteMainBidRate(id, offer.rate, now);
        UpdateOffer(id, offerer, None);
        return Done(OfferAccepted);
      }
      return Done(VotePending);
    }

    // -------------------------------------------------------------- expiry

    method ResolveExpiredOffer(id: BidId, offerer: UserId, now: int) returns (reply: Reply)
      modifies this
      ensures id !in old(bids) ==> bids == old(bids) && reply == Failed(BidNotFound)
      ensures id in old(bids) ==> var r := Resolve(old(bids)[id], offerer, now);
        bids == old(bids)[id := r.bid] && reply == r.reply
    {
      if id !in bids {
        return Failed(BidNotFound);
      }
      var currentRate := bids[id].rate;
      if !HasOffer(bids[id], offerer) {
        return Done(AlreadyCleared);
      }
      var offer := OfferOf(bids[id], offerer);
      if offer.createdRateAt + FRESH > now {
        return Failed(OfferStillFresh);
      }
      var shouldApplyRate := offer.rate <= currentRate;
      UpdateOffer(id, offerer, None);
      if shouldApplyRate {
        WriteMainBidRate(id, offer.rate, now);
        return Done(ExpiredAccepted);
      }
      return Done(ExpiredTooHigh);
    }

    /** The client's way in: only members of the bid's chat, when it has one. */
    method AutoAcceptExpiredOffer(id: BidId, offerer: UserId, access: ChatAccess, now: int) returns (reply: Reply)
      modifies this
      ensures id in old(bids) && access == NotMember ==> bids == old(bids) && reply == Failed(NotChatMember)
      ensures id !in old(bids) ==> bids == old(bids) && reply == Failed(BidNotFound)
      ensures id in old(bids) && access != NotMember ==> var r := Resolve(old(bids)[id], offerer, now);
        bids == old(bids)[id := r.bid] && reply == r.reply
    {
      if id !in bids {
        return Failed(BidNotFound);
      }
      if access == NotMember {
        return Failed(NotChatMember);
      }
      reply := ResolveExpiredOffer(id, offerer, now);
    }

    /** One chunk of the sweep, one resolver after the other. */
    method ResolveChunk(ghost start: map<BidId, Bid>, expired: seq<OfferKey>, i: nat, n: nat, now: int)
      returns (results: seq<Reply>)
      requires i <= n <= |expired| && bids == Sweep(start, expired[..i], now).0
      modifies this
      ensures bids == Sweep(start, expired[..n], now).0
      ensures Sweep(start, expired[..i], now).1 + results == Sweep(start, expired[..n], now).1
      ensures |results| == n - i
      decreases n - i
    {
      if i == n {
        return [];
      }
      assert expired[..i + 1][..i] == expired[..i];
      var reply := ResolveExpiredOffer(expired[i].0, expired[i].1, now);
      assert Sweep(start, expired[..i + 1], now) == (bids, Sweep(start, expired[..i], now).1 + [reply]);
      var rest := ResolveChunk(start, expired, i + 1, n, now);
      return [reply] + rest;
    }

    /**
     The cron sweep over the expired offers, `batchSize` resolvers to a chunk, each chunk's results tallied
     before the next. Run one at a time, in any order, the resolvers bring every bid to the lowest rate.
     */
    method ResolveExpiredOffersBatch(batchSize: real, expired: seq<OfferKey>, now: int) returns (counts: BatchCounts)
      requires ExpiredList(expired, bids, now)
      modifies this
      ensures TableSwept(old(bids), bids, expired, now)
      ensures counts.found == counts.accepted + counts.clearedPriceTooHigh + counts.alreadyCleared + counts.failed
      ensures var replies := Sweep(old(bids), expired, now).1;
        counts == BatchCounts(|expired|, CountOf(replies, ExpiredAccepted), CountOf(replies, ExpiredTooHigh), 0, 0)
    {
      var size := if batchSize.Floor > 1 then batchSize.Floor else 1;
      counts := BatchCounts(|expired|, 0, 0, 0, 0);
      ghost var start := bids;
      var i := 0;
      while i < |expired|
        invariant 0 <= i <= |expired|
        invariant bids == Sweep(start, expired[..i], now).0
        invariant counts == Counted(|expired|, Sweep(start, expired[..i], now).1)
        decreases |expired| - i
      {
        ghost var before := Sweep(start, expired[..i], now).1;
        var n := if i + size < |expired| then i + size else |expired|;
        var results := ResolveChunk(start, expired, i, n, now);
        CountedSplit(|expired|, before, results);
        counts := Tally(counts, results);
        i := n;
      }
      assert expired[..i] == expired;
      SweepIs(start, expired, |expired|, now);
      CountedResolved(|expired|, Sweep(start, expired, now).1);
    }

    /** The results of one chunk, added to the counts so far. */
    method Tally(counts: BatchCounts, results: seq<Reply>) returns (r: BatchCounts)
      ensures r == AddedCounts(counts, Counted(0, results))
    {
      var accepted, tooHigh, cleared, failed :=
        counts.accepted, counts.clearedPriceTooHigh, counts.alreadyCleared, counts.failed;
      var k := 0;
      while k < |results|
        invariant 0 <= k <= |results|
        invariant BatchCounts(counts.found, accepted, tooHigh, cleared, failed)
          == AddedCounts(counts, Counted(0, results[..k]))
      {
        assert results[..k + 1][..k] == results[..k];
        match results[k] {
          case Failed(_) => failed := failed + 1;
          case Done(ExpiredAccepted) => accepted := accepted + 1;
          case Done(ExpiredTooHigh) => tooHigh := tooHigh + 1;
          case Done(AlreadyCleared) => cleared := cleared + 1;
          case Done(_) =>
        }
        k := k + 1;
      }
      assert results[..k] == results;
      r := BatchCounts(counts.found, accepted, tooHigh, cleared, failed);
    }

    // -------------------------------------------------------------- archive, purge, remove

    method ArchiveStaleBidRates(now: int) returns (archivedCount: nat)
      modifies this
      ensures bids.Keys == old(bids).Keys
      ensures forall id | id in bids :: bids[id] == ArchiveIfIdle(old(bids)[id], now).bid
      ensures archivedCount == |set id | id in bids && ArchiveIfIdle(old(bids)[id], now).reply == Done(Archived)|
    {
      var cutoff := now - ARCHIVE_IDLE;
      var rows := set id | id in bids && !bids[id].isArchive && bids[id].updatedAt < cutoff;
      assert rows == set id | id in bids && ArchiveIfIdle(old(bids)[id], now).reply == Done(Archived);
      bids := map id | id in bids :: if id in rows then bids[id].(isArchive := true, updatedAt := now) else bids[id];
      archivedCount := |rows|;
    }

    method PurgeExpiredArchivedBidRates(now: int) returns (deleted: nat)
      modifies this
      ensures bids == map id | id in old(bids) && !PurgeDue(old(bids)[id], now) :: old(bids)[id]
      ensures deleted + |bids| == |old(bids)|
    {
      var cutoff := now - PURGE_AFTER;
      var rows := set id | id in bids && bids[id].isArchive && bids[id].updatedAt < cutoff;
      var kept := bids - rows;
      assert bids.Keys == kept.Keys + rows && kept.Keys !! rows;
      assert |bids.Keys| == |kept.Keys| + |rows|;
      bids := kept;
      deleted := |rows|;
    }

    method Remove(id: BidId) returns (reply: Option<Error>)
      modifies this
      ensures reply == if id in old(bids) then None else Some(BidNotFound)
      ensures id !in bids && forall other | other != id ::
        (other in bids <==> other in old(bids)) && (other in bids ==> bids[other] == old(bids)[other])
    {
      if id !in bids {
        return Some(BidNotFound);
      }
      bids := bids - {id};
      return None;
    }
  }

  // ---------------------------------------------------------------- proofs for the methods

  lemma {:induction false} FoundAtEnd(votes: seq<Voter>, u: UserId)
    requires FindVoter(votes, u) == |votes|
    ensures FindVoter(votes + [Voter(u, Pending, 0)], u) == |votes|
  {
    var more := votes + [Voter(u, Pending, 0)];
    assert forall k | 0 <= k < |votes| :: more[k].userId != u;
    assert more[|votes|].userId == u;
  }

  lemma SweptStart(start: map<BidId, Bid>, expired: seq<OfferKey>, now: int)
    ensures TableSwept(start, start, expired[..0], now)
  {
    forall id | id in start ensures Swept(start[id], start[id], UsersOf(expired[..0], id), now) {
      SweptNone(start[id], now);
      assert UsersOf(expired[..0], id) == {};
    }
  }

  lemma UsersNext(expired: seq<OfferKey>, j: nat, id: BidId, u: UserId)
    requires j < |expired| && expired[j] == (id, u) && forall i, k :: 0 <= i < k < |expired| ==> expired[i] != expired[k]
    ensures u !in UsersOf(expired[..j], id)
    ensures UsersOf(expired[..j + 1], id) == UsersOf(expired[..j], id) + {u}
    ensures forall other | other != id :: UsersOf(expired[..j + 1], other) == UsersOf(expired[..j], other)
  {
    assert expired[..j + 1] == expired[..j] + [(id, u)];
    assert (id, u) !in expired[..j];
  }

  /** The next resolver of the sweep finds its offer still stored, and moves the whole table one offer on. */
  lemma SweptNext(start: map<BidId, Bid>, before: map<BidId, Bid>, expired: seq<OfferKey>, j: nat, now: int)
    requires ExpiredList(expired, start, now) && j < |expired|
    requires TableSwept(start, before, expired[..j], now)
    ensures expired[j].0 in before
    ensures var r := Resolve(before[expired[j].0], expired[j].1, now);
      && TableSwept(start, before[expired[j].0 := r.bid], expired[..j + 1], now)
      && (r.reply == Done(ExpiredAccepted) || r.reply == Done(ExpiredTooHigh))
  {
    var (id, u) := expired[j];
    assert expired[j] in expired;
    UsersNext(expired, j, id, u);
    SweptOneMore(start[id], before[id], UsersOf(expired[..j], id), u, now);
  }

  lemma {:induction false} CountedSplit(found: nat, a: seq<Reply>, b: seq<Reply>)
    ensures Counted(found, a + b) == AddedCounts(Counted(found, a), Counted(0, b))
  {
    if b == [] {
      assert a + b == a;
    } else {
      CountedSplit(found, a, b[..|b| - 1]);
      assert (a + b)[..|a + b| - 1] == a + b[..|b| - 1];
    }
  }

  lemma {:induction false} CountedResolved(found: nat, replies: seq<Reply>)
    requires AllResolved(replies)
    ensures var c := Counted(found, replies);
      c.accepted + c.clearedPriceTooHigh == |replies| && c.alreadyCleared == 0 && c.failed == 0
  {
    if replies != [] {
      CountedResolved(found, replies[..|replies| - 1]);
    }
  }

  /** The first `n` offers of the list have been resolved, each accepted or cleared. */
  ghost predicate SweptSoFar(start: map<BidId, Bid>, expired: seq<OfferKey>, n: nat, now: int)
    requires n <= |expired|
  {
    var (table, replies) := Sweep(start, expired[..n], now);
    TableSwept(start, table, expired[..n], now) && |replies| == n && AllResolved(replies)
  }

  lemma SweepOneMore(start: map<BidId, Bid>, expired: seq<OfferKey>, n: nat, now: int)
    requires ExpiredList(expired, start, now) && n < |expired| && SweptSoFar(start, expired, n, now)
    ensures SweptSoFar(start, expired, n + 1, now)
  {
    assert expired[..n + 1][..n] == expired[..n];
    var (table, replies) := Sweep(start, expired[..n], now);
    SweptNext(start, table, expired, n, now);
    var r := Resolve(table[expired[n].0], expired[n].1, now);
    assert Sweep(start, expired[..n + 1], now) == (table[expired[n].0 := r.bid], replies + [r.reply]);
  }

  /** A sweep of expired offers resolves each of them, and finds none cleared already. */
  lemma {:induction false} SweepIs(start: map<BidId, Bid>, expired: seq<OfferKey>, n: nat, now: int)
    requires ExpiredList(expired, start, now) && n <= |expired|
    ensures SweptSoFar(start, expired, n, now)
  {
    if n == 0 {
      SweptStart(start, expired, now);
    } else {
      SweepIs(start, expired, n - 1, now);
      SweepOneMore(start, expired, n - 1, now);
    }
  }

  /** After a sweep no expired offer is left on a non-archived bid, and archived bids are untouched. */
  lemma SweepLeavesNoneExpired(before: map<BidId, Bid>, after: map<BidId, Bid>, expired: seq<OfferKey>, now: int)
    requires ExpiredList(expired, before, now) && TableSwept(before, after, expired, now)
    ensures forall id, u | id in after && HasOffer(after[id], u) :: before[id].isArchive || IsFresh(OfferOf(after[id], u), now)
    ensures forall id | id in before && before[id].isArchive :: after[id] == before[id]
  {
    forall id, u | id in after && HasOffer(after[id], u)
      ensures before[id].isArchive || IsFresh(OfferOf(after[id], u), now)
    {
      assert HasOffer(before[id], u) && OfferOf(before[id], u) == OfferOf(after[id], u);
      assert u !in UsersOf(expired, id);
      assert (id, u) !in expired;
    }
    forall id | id in before && before[id].isArchive ensures after[id] == before[id] {
      assert UsersOf(expired, id) == {};
      assert Cleared(before[id], {}) == before[id];
    }
  }
}
