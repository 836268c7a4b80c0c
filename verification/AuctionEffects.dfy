/**
 When each request on a bid succeeds and what it leaves behind, in terms of the stored rows and stamps alone.
 Seconds and counts are written out.
 */
module AuctionEffects {
  import opened Options
  import opened Auction
  import opened AuctionInvariant
  import opened AuctionRuns

  // ---------------------------------------------------------------- what stays

  predicate SameBidRow(b: Bid, c: Bid) {
    && c.ownerId == b.ownerId && c.isDoNotBid == b.isDoNotBid
    && c.rate == b.rate && c.isRateChange == b.isRateChange && c.isArchive == b.isArchive
    && c.createdAt == b.createdAt && c.updatedAt == b.updatedAt
  }

  /** The official rate was written: a new card cycle, not archived. */
  predicate RateWritten(b: Bid, c: Bid, rate: real, now: int) {
    && c.ownerId == b.ownerId && c.isDoNotBid == b.isDoNotBid
    && c.rate == rate && c.isRateChange && !c.isArchive
    && c.createdAt == now && c.updatedAt == now
  }

  /** No row but that of `u` has come, gone or changed. */
  predicate OtherRowsSame(b: Bid, c: Bid, u: UserId) {
    && (forall w | w in b.participants && w != u :: w in c.participants && c.participants[w] == b.participants[w])
    && (forall w | w in c.participants && w != u :: w in b.participants)
  }

  predicate SameRowButOffer(p: Participant, q: Participant) {
    q.isOwner == p.isOwner && q.createdAt == p.createdAt && q.updatedAt == p.updatedAt
  }

  /** The row of `u` is there before and after, and no more than its offer has changed. */
  predicate OnlyOfferChanged(b: Bid, c: Bid, u: UserId) {
    && u in b.participants && u in c.participants && SameRowButOffer(b.participants[u], c.participants[u])
    && OtherRowsSame(b, c, u)
  }

  // ---------------------------------------------------------------- placing a price

  /** A +1 user whose quarter of an hour has not run out. */
  predicate PlusOneTimerRuns(b: Bid, u: UserId, now: int) {
    u in b.participants && !b.participants[u].isOwner && b.participants[u].updatedAt + 900 > now
  }

  predicate StampedSince(b: Bid, u: UserId, second: int) {
    u in b.participants && b.participants[u].offer.Some? && b.participants[u].offer.value.createdRateAt >= second
  }

  /** The bid takes prices of this requester: it is biddable, and fewer than three offers are four minutes old or less. */
  predicate TakesPrices(b: Bid, access: ChatAccess, now: int) {
    !b.isDoNotBid && access == Member && |set u | u in b.participants && StampedSince(b, u, now - 240)| < 3
  }

  /** The price undercuts the official rate and every offer that is four minutes old or less. */
  predicate Undercuts(b: Bid, price: real, now: int) {
    && price < b.rate
    && forall v | v in b.participants && StampedSince(b, v, now - 240) :: price < b.participants[v].offer.value.rate
  }

  predicate SomeTimerRuns(b: Bid, now: int) {
    exists w | w in b.participants :: PlusOneTimerRuns(b, w, now)
  }

  /** Who may place an offer: a running +1 user, or the owner while some +1 timer runs; with no younger offer of theirs. */
  predicate MayOffer(b: Bid, u: UserId, now: int) {
    && (if u == b.ownerId then SomeTimerRuns(b, now) else PlusOneTimerRuns(b, u, now))
    && !StampedSince(b, u, now - 239)
  }

  lemma WindowIsStamps(b: Bid, now: int)
    ensures ActiveOfferers(b, now) == set u | u in b.participants && StampedSince(b, u, now - 240)
    ensures SomePlusOneRunning(b, now) <==> SomeTimerRuns(b, now)
  {
    assert forall u | u in b.participants :: PlusOneRunning(b, u, now) <==> PlusOneTimerRuns(b, u, now);
  }

  lemma UndercutsIsBelow(b: Bid, price: real, now: int)
    ensures Undercuts(b, price, now) <==> price < b.rate && BelowActiveOffers(b, price, now)
  {
    assert forall v | v in b.participants :: HasActiveOffer(b, v, now) <==> StampedSince(b, v, now - 240);
  }

  /** When a price is taken, and as what. */
  lemma PriceTakenExactlyWhen(b: Bid, u: UserId, price: real, access: ChatAccess, rows: seq<UserId>, now: int)
    requires OwnerRow(b) && EnumeratesRows(rows, b)
    ensures var reply := NewPrice(b, u, price, access, rows, now).reply;
      && (reply == Done(OfferPlaced) <==> TakesPrices(b, access, now) && MayOffer(b, u, now) && Undercuts(b, price, now))
      && (reply == Done(RateChanged) <==> TakesPrices(b, access, now) && u == b.ownerId && !SomeTimerRuns(b, now))
      && (reply.Done? ==> reply == Done(OfferPlaced) || reply == Done(RateChanged))
  {
    WindowIsStamps(b, now);
    UndercutsIsBelow(b, price, now);
    NoAutoAccept(b, u, price, access, rows, now);
    assert HasFreshOffer(b, u, now) <==> StampedSince(b, u, now - 239);
  }

  /** The frozen voters: the running +1 users and the owner, but for the offerer, once each, with nothing decided. */
  ghost predicate FrozenVoters(b: Bid, offerer: UserId, votes: seq<Voter>, now: int) {
    && (forall w :: Includes(votes, w) <==> w != offerer && (w == b.ownerId || PlusOneTimerRuns(b, w, now)))
    && (forall i, j | 0 <= i < j < |votes| :: votes[i].userId != votes[j].userId)
    && (forall i | 0 <= i < |votes| :: votes[i].vote == Pending)
    && (forall i | 0 <= i < |votes| && votes[i].userId != b.ownerId ::
          votes[i].userId in b.participants && votes[i].plusOneCreatedAt == b.participants[votes[i].userId].createdAt)
  }

  lemma SnapshotIsFrozen(b: Bid, rows: seq<UserId>, u: UserId, now: int)
    requires OwnerRow(b) && EnumeratesRows(rows, b)
    ensures FrozenVoters(b, u, Snapshot(b, rows, u, now), now)
  {
    SnapshotVoters(b, rows, u, now);
    var votes := Snapshot(b, rows, u, now);
    assert forall w :: PlusOneRunning(b, w, now) <==> PlusOneTimerRuns(b, w, now);
    assert forall i | 0 <= i < |votes| :: Includes(votes, votes[i].userId);
  }

  /** What a taken price stores, and that a refused one stores nothing. */
  lemma PriceEffect(b: Bid, u: UserId, price: real, access: ChatAccess, rows: seq<UserId>, now: int)
    requires OwnerRow(b) && EnumeratesRows(rows, b)
    ensures var r := NewPrice(b, u, price, access, rows, now);
      && (r.reply.Failed? ==> r.bid == b)
      && (r.reply == Done(RateChanged) ==> RateWritten(b, r.bid, price, now) && r.bid.participants == b.participants)
      && (r.reply == Done(OfferPlaced) ==>
            && SameBidRow(b, r.bid) && OnlyOfferChanged(b, r.bid, u)
            && r.bid.participants[u].offer.Some?
            && r.bid.participants[u].offer.value.rate == price
            && r.bid.participants[u].offer.value.createdRateAt == now
            && FrozenVoters(b, u, r.bid.participants[u].offer.value.votes, now))
  {
    NoAutoAccept(b, u, price, access, rows, now);
    SnapshotIsFrozen(b, rows, u, now);
  }

  /** Why a price is refused: the first of these that applies. */
  lemma PriceRefusals(b: Bid, u: UserId, price: real, access: ChatAccess, rows: seq<UserId>, now: int)
    requires OwnerRow(b) && EnumeratesRows(rows, b)
    ensures var reply := NewPrice(b, u, price, access, rows, now).reply;
      var full := |set v | v in b.participants && StampedSince(b, v, now - 240)| >= 3;
      var plusOne := u in b.participants && !b.participants[u].isOwner;
      var offers := if u == b.ownerId then SomeTimerRuns(b, now) else PlusOneTimerRuns(b, u, now);
      && (reply == Failed(DoNotBidLoad) <==> b.isDoNotBid)
      && (reply == Failed(NoLinkedChat) <==> !b.isDoNotBid && access == NoChat)
      && (reply == Failed(NotChatMember) <==> !b.isDoNotBid && access == NotMember)
      && (reply == Failed(TooManyOffers) <==> !b.isDoNotBid && access == Member && full)
      && (!b.isDoNotBid && access == Member && !full ==>
            && (reply == Failed(PlusOneRequired) <==> u != b.ownerId && !plusOne)
            && (reply == Failed(TimerExpired) <==> u != b.ownerId && plusOne && b.participants[u].updatedAt + 900 <= now)
            && (reply == Failed(ActiveOfferExists) <==> offers && StampedSince(b, u, now - 239))
            && (reply == Failed(NotBelowBidRate) <==> offers && !StampedSince(b, u, now - 239) && price >= b.rate)
            && (reply == Failed(NotBelowActiveOffers) <==>
                  offers && !StampedSince(b, u, now - 239) && price < b.rate && !Undercuts(b, price, now)))
  {
    WindowIsStamps(b, now);
    UndercutsIsBelow(b, price, now);
    assert HasFreshOffer(b, u, now) <==> StampedSince(b, u, now - 239);
  }

  // ---------------------------------------------------------------- voting

  predicate PendingEntry(b: Bid, entry: Voter, voter: UserId, now: int) {
    && entry.userId == voter && entry.vote == Pending
    && (voter == b.ownerId || (PlusOneTimerRuns(b, voter, now) && b.participants[voter].createdAt == entry.plusOneCreatedAt))
  }

  /** The voter has accepted another offer that is four minutes old or less. */
  predicate AcceptedAnother(b: Bid, voter: UserId, offerer: UserId, now: int) {
    exists w | w in b.participants ::
      && w != offerer && StampedSince(b, w, now - 240)
      && exists i | 0 <= i < |b.participants[w].offer.value.votes| ::
           b.participants[w].offer.value.votes[i].userId == voter && b.participants[w].offer.value.votes[i].vote == Accepted
  }

  /** The vote is open to the voter: the offer is younger than four minutes, and their frozen entry is pending and current. */
  predicate MayVote(b: Bid, offerer: UserId, voter: UserId, now: int) {
    && offerer != voter && !b.isDoNotBid
    && StampedSince(b, offerer, now - 239)
    && (exists i | 0 <= i < |b.participants[offerer].offer.value.votes| ::
          PendingEntry(b, b.participants[offerer].offer.value.votes[i], voter, now))
    && !AcceptedAnother(b, voter, offerer, now)
  }

  lemma LockIsAccept(b: Bid, voter: UserId, offerer: UserId, now: int)
    ensures LockedElsewhere(b, voter, offerer, now) <==> AcceptedAnother(b, voter, offerer, now)
  {
    assert forall w | w in b.participants :: HasActiveOffer(b, w, now) <==> StampedSince(b, w, now - 240);
    assert forall w | w in b.participants && StampedSince(b, w, now - 240) ::
      HasAccepted(OfferOf(b, w).votes, voter) <==>
        exists i | 0 <= i < |b.participants[w].offer.value.votes| ::
          b.participants[w].offer.value.votes[i].userId == voter && b.participants[w].offer.value.votes[i].vote == Accepted;
  }

  /** A vote is taken exactly when it is open to the voter; then its reply says whether it was a reject. */
  lemma VoteTakenExactlyWhen(b: Bid, offerer: UserId, voter: UserId, accept: bool, now: int)
    requires Inv(b, now)
    ensures var reply := VoteOn(b, offerer, voter, accept, now).reply;
      && (reply.Done? <==> MayVote(b, offerer, voter, now))
      && (reply == Done(OfferRejected) <==> MayVote(b, offerer, voter, now) && !accept)
      && (reply == Done(OfferAccepted) || reply == Done(VotePending) <==> MayVote(b, offerer, voter, now) && accept)
  {
    LockIsAccept(b, voter, offerer, now);
    assert HasFreshOffer(b, offerer, now) <==> StampedSince(b, offerer, now - 239);
    if HasFreshOffer(b, offerer, now) && offerer != voter {
      BallotIsSnapshot(b, offerer, voter, now);
      EntryIsFirst(b, offerer, voter, now);
    }
  }

  /** A voter has one entry in a snapshot. */
  lemma EntryIsFirst(b: Bid, offerer: UserId, voter: UserId, now: int)
    requires Inv(b, now) && HasOffer(b, offerer)
    ensures var votes := OfferOf(b, offerer).votes; var k := FindVoter(votes, voter);
      (exists i | 0 <= i < |votes| :: PendingEntry(b, votes[i], voter, now)) <==>
        k < |votes| && votes[k].vote == Pending && CanUserVote(b, votes[k], voter, now)
  {
    var votes := OfferOf(b, offerer).votes;
    var k := FindVoter(votes, voter);
    assert SnapshotOk(b, offerer, OfferOf(b, offerer));
    assert PlusOneRunning(b, voter, now) <==> PlusOneTimerRuns(b, voter, now);
    if i :| 0 <= i < |votes| && PendingEntry(b, votes[i], voter, now) {
      assert i == k;
    }
    if k < |votes| && votes[k].vote == Pending && CanUserVote(b, votes[k], voter, now) {
      assert PendingEntry(b, votes[k], voter, now);
    }
  }

  /** A reject takes the offer out, whoever casts it, and nothing else changes. */
  lemma RejectEffect(b: Bid, offerer: UserId, voter: UserId, accept: bool, now: int)
    requires VoteOn(b, offerer, voter, accept, now).reply == Done(OfferRejected)
    ensures var c := VoteOn(b, offerer, voter, accept, now).bid;
      && SameBidRow(b, c) && OnlyOfferChanged(b, c, offerer)
      && c.participants[offerer].offer == None
  {
  }

  lemma RefusedVoteEffect(b: Bid, offerer: UserId, voter: UserId, accept: bool, now: int)
    requires VoteOn(b, offerer, voter, accept, now).reply.Failed?
    ensures VoteOn(b, offerer, voter, accept, now).bid == b
  {
  }

  /** An accept restarts the voter's own timer, unless the voter is the owner, and no other clock. */
  predicate ClocksAfterAccept(b: Bid, c: Bid, voter: UserId, now: int) {
    && c.participants.Keys == b.participants.Keys
    && forall w | w in b.participants ::
         && c.participants[w].isOwner == b.participants[w].isOwner
         && if w == voter && w != b.ownerId && !b.participants[w].isOwner
            then c.participants[w].createdAt == now && c.participants[w].updatedAt == now
            else SameRowButOffer(b.participants[w], c.participants[w])
  }

  /** The voter's entry is accepted now, every other entry is as before. */
  predicate MarkedAccepted(before: seq<Voter>, after: seq<Voter>, voter: UserId) {
    && |after| == |before|
    && forall i | 0 <= i < |before| ::
         after[i] == if before[i].userId == voter then before[i].(vote := Accepted) else before[i]
  }

  predicate RowsButOffers(b: Bid, c: Bid) {
    c.participants.Keys == b.participants.Keys && forall w | w in b.participants :: SameRowButOffer(b.participants[w], c.participants[w])
  }

  lemma BallotStored(b: Bid, offerer: UserId, o: Offer)
    requires HasOffer(b, offerer)
    ensures var c := SetOffer(ClearOtherOffers(b, offerer), offerer, Some(o)); SameBidRow(b, c) && RowsButOffers(b, c)
  {
  }

  lemma RestartedClock(b: Bid, c: Bid, voter: UserId, now: int)
    requires SameBidRow(b, c) && RowsButOffers(b, c)
    ensures var d := if voter == b.ownerId then c else RestartPlusOne(c, voter, now);
      SameBidRow(b, d) && ClocksAfterAccept(b, d, voter, now)
  {
  }

  lemma RecordedClocks(b: Bid, offerer: UserId, voter: UserId, now: int)
    requires HasOffer(b, offerer)
    ensures ClocksAfterAccept(b, RecordAccept(b, offerer, voter, now), voter, now)
    ensures SameBidRow(b, RecordAccept(b, offerer, voter, now))
  {
    var o := OfferOf(b, offerer).(votes := AcceptedBallot(b, offerer, voter));
    BallotStored(b, offerer, o);
    RestartedClock(b, SetOffer(ClearOtherOffers(b, offerer), offerer, Some(o)), voter, now);
  }

  lemma RecordedBallot(b: Bid, offerer: UserId, voter: UserId, now: int)
    requires Inv(b, now) && VoteError(b, offerer, voter, now).None?
    ensures MarkedAccepted(OfferOf(b, offerer).votes, AcceptedBallot(b, offerer, voter), voter)
  {
    var votes := OfferOf(b, offerer).votes;
    BallotIsSnapshot(b, offerer, voter, now);
    assert SnapshotOk(b, offerer, OfferOf(b, offerer));
    var k := FindVoter(votes, voter);
    assert forall i | 0 <= i < |votes| && i != k :: votes[i].userId != voter;
  }

  /** An accept that is not the last: it is marked, all other offers go, and the voter's timer restarts. */
  lemma PendingEffect(b: Bid, offerer: UserId, voter: UserId, now: int)
    requires Inv(b, now) && VoteOn(b, offerer, voter, true, now).reply == Done(VotePending)
    ensures var c := VoteOn(b, offerer, voter, true, now).bid;
      && SameBidRow(b, c) && ClocksAfterAccept(b, c, voter, now)
      && (forall w | w in c.participants :: c.participants[w].offer.Some? <==> w == offerer)
      && offerer in b.participants && b.participants[offerer].offer.Some?
      && var before, after := b.participants[offerer].offer.value, c.participants[offerer].offer.value;
         && after.rate == before.rate && after.createdRateAt == before.createdRateAt
         && MarkedAccepted(before.votes, after.votes, voter)
  {
    RecordedClocks(b, offerer, voter, now);
    RecordedBallot(b, offerer, voter, now);
    OnlyOfferLeft(b, offerer, voter, now);
    var c := RecordAccept(b, offerer, voter, now);
    assert VoteOn(b, offerer, voter, true, now).bid == c;
    assert forall w | w in c.participants :: c.participants[w].offer.Some? <==> HasOffer(c, w);
    assert c.participants[offerer].offer.value == OfferOf(c, offerer);
  }

  /** The last accept: the offer's rate becomes official and no offer is left. */
  lemma AcceptedEffect(b: Bid, offerer: UserId, voter: UserId, now: int)
    requires Inv(b, now) && VoteOn(b, offerer, voter, true, now).reply == Done(OfferAccepted)
    ensures var c := VoteOn(b, offerer, voter, true, now).bid;
      && offerer in b.participants && b.participants[offerer].offer.Some?
      && RateWritten(b, c, b.participants[offerer].offer.value.rate, now)
      && ClocksAfterAccept(b, c, voter, now)
      && forall w | w in c.participants :: c.participants[w].offer == None
  {
    var c := VoteOn(b, offerer, voter, true, now).bid;
    var recorded := RecordAccept(b, offerer, voter, now);
    RecordedClocks(b, offerer, voter, now);
    OnlyOfferLeft(b, offerer, voter, now);
    NoneLeft(recorded, offerer, OfferOf(b, offerer).rate, now);
    assert forall w | w in c.participants :: !HasOffer(c, w);
  }

  // ---------------------------------------------------------------- expiry and archiving

  /** Resolving: nothing without an offer or before its four minutes; then the offer goes, and its rate is taken if not above. */
  lemma ResolveEffect(b: Bid, u: UserId, now: int)
    ensures var r := Resolve(b, u, now);
      if u !in b.participants || b.participants[u].offer.None? then r == Outcome(b, Done(AlreadyCleared))
      else if StampedSince(b, u, now - 239) then r == Outcome(b, Failed(OfferStillFresh))
      else
        && OnlyOfferChanged(b, r.bid, u) && r.bid.participants[u].offer == None
        && var rate := b.participants[u].offer.value.rate;
           if rate <= b.rate then r.reply == Done(ExpiredAccepted) && RateWritten(b, r.bid, rate, now)
           else r.reply == Done(ExpiredTooHigh) && SameBidRow(b, r.bid)
  {
  }

  /** A live card untouched for more than twelve hours is archived; its clock then counts to the purge. */
  lemma ArchiveEffect(b: Bid, now: int)
    ensures var r := ArchiveIfIdle(b, now);
      if !b.isArchive && b.updatedAt + 43200 < now
      then r.reply == Done(Archived) && r.bid == b.(isArchive := true, updatedAt := now)
      else r == Outcome(b, Done(NotIdle))
  {
  }

  // ---------------------------------------------------------------- joining and extending

  /** Joining, for members of the chat only: who gets a row, whose timer restarts, and why others are refused. */
  lemma JoinEffect(b: Bid, u: UserId, hiddenAdmin: bool, access: ChatAccess, now: int)
    ensures var r := Join(b, u, hiddenAdmin, access, now);
      var open := !b.isDoNotBid && (u != b.ownerId || hiddenAdmin);
      && (r.reply == Failed(DoNotBidLoad) <==> b.isDoNotBid)
      && (r.reply == Failed(OwnerCannotJoin) <==> !b.isDoNotBid && u == b.ownerId && !hiddenAdmin)
      && (r.reply == Failed(NotChatMember) <==> open && access != Member)
      && (r.reply == Done(Joined) <==> open && access == Member && u !in b.participants)
      && (r.reply == Done(OwnerSlot) <==> open && access == Member && u in b.participants && b.participants[u].isOwner)
      && (r.reply == Done(AlreadyJoined) <==> open && access == Member && PlusOneTimerRuns(b, u, now))
      && (r.reply == Done(Rejoined) <==>
            open && access == Member && u in b.participants && !b.participants[u].isOwner && !PlusOneTimerRuns(b, u, now))
      && SameBidRow(b, r.bid) && OtherRowsSame(b, r.bid, u)
      && (r.reply == Done(Joined) ==> u in r.bid.participants && r.bid.participants[u] == Participant(false, now, now, None))
      && (r.reply == Done(Rejoined) ==>
            && u in r.bid.participants && !r.bid.participants[u].isOwner
            && r.bid.participants[u].createdAt == now && r.bid.participants[u].updatedAt == now
            && r.bid.participants[u].offer == b.participants[u].offer)
      && (r.reply != Done(Joined) && r.reply != Done(Rejoined) ==> r.bid == b)
  {
  }

  /** The owner extends the card by a quarter of an hour and changes nothing else. */
  lemma ExtendBidEffect(b: Bid, requester: UserId, now: int)
    ensures var r := ExtendBid(b, requester, now);
      && (r.reply == Failed(NotBidOwner) <==> requester != b.ownerId)
      && (r.reply == Done(Extended) ==> r.bid == b.(updatedAt := b.updatedAt + 900))
      && (r.reply != Done(Extended) ==> r.bid == b && r.reply.Failed?)
      && (requester == b.ownerId ==>
            (r.reply == Failed(TimerExpired) <==> b.updatedAt - b.createdAt < 2700 && b.updatedAt + 900 <= now))
  {
  }

  /** A +1 timer is extended by its user or by the owner, while it runs and has been extended fewer than three times. */
  lemma ExtendPlusOneEffect(b: Bid, requester: UserId, target: Option<UserId>, now: int)
    requires Inv(b, now)
    ensures var r := ExtendPlusOne(b, requester, target, now);
      var u := if target.Some? then target.value else requester;
      var may := requester == b.ownerId || u == requester;
      var plusOne := u in b.participants && !b.participants[u].isOwner;
      && (r.reply == Failed(NotAllowedToExtend) <==> !may)
      && (r.reply == Failed(ParticipantNotFound) <==> may && !plusOne)
      && (r.reply == Failed(ExtendLimitReached) <==>
            may && plusOne && b.participants[u].updatedAt - b.participants[u].createdAt >= 2700)
      && (r.reply == Failed(TimerExpired) <==>
            may && plusOne && b.participants[u].updatedAt - b.participants[u].createdAt < 2700 && !PlusOneTimerRuns(b, u, now))
      && (r.reply == Done(Extended) <==>
            may && PlusOneTimerRuns(b, u, now) && b.participants[u].updatedAt - b.participants[u].createdAt < 2700)
      && (r.reply == Done(Extended) ==>
            && SameBidRow(b, r.bid) && OtherRowsSame(b, r.bid, u)
            && u in r.bid.participants
            && r.bid.participants[u] == b.participants[u].(updatedAt := b.participants[u].updatedAt + 900))
      && (r.reply != Done(Extended) ==> r.bid == b)
  {
    var u := if target.Some? then target.value else requester;
    if u in b.participants {
      assert PlusOneClock(b.participants[u], now);
    }
  }

  // ---------------------------------------------------------------- what is stored was placed

  /** Event `k` placed the offer that is stored for `u` at the end. */
  ghost predicate PlacedAt(b: Bid, events: seq<Event>, k: nat, u: UserId) {
    && k < |events|
    && events[k].op.OpNewPrice? && events[k].op.requester == u
    && Step(Exec(b, events[..k]), events[k]).reply == Done(OfferPlaced)
    && var c := Exec(b, events);
       && u in c.participants && c.participants[u].offer.Some?
       && c.participants[u].offer.value.rate == events[k].op.price
       && c.participants[u].offer.value.createdRateAt == events[k].now
  }

  predicate SameOffer(b: Bid, c: Bid, u: UserId) {
    && HasOffer(b, u) && HasOffer(c, u)
    && OfferOf(b, u).rate == OfferOf(c, u).rate && OfferOf(b, u).createdRateAt == OfferOf(c, u).createdRateAt
  }

  lemma StoredByVote(b: Bid, offerer: UserId, voter: UserId, accept: bool, now: int, u: UserId)
    requires HasOffer(VoteOn(b, offerer, voter, accept, now).bid, u)
    ensures SameOffer(b, VoteOn(b, offerer, voter, accept, now).bid, u)
  {
    if VoteError(b, offerer, voter, now).None? && accept {
      var recorded := RecordAccept(b, offerer, voter, now);
      OnlyOfferLeft(b, offerer, voter, now);
      NoneLeft(recorded, offerer, OfferOf(b, offerer).rate, now);
      assert VoteOn(b, offerer, voter, accept, now).bid == recorded;
    }
  }

  lemma StoredByPrice(b: Bid, u: UserId, price: real, access: ChatAccess, rows: seq<UserId>, now: int, v: UserId)
    requires OwnerRow(b) && EnumeratesRows(rows, b) && HasOffer(NewPrice(b, u, price, access, rows, now).bid, v)
    ensures var r := NewPrice(b, u, price, access, rows, now);
      SameOffer(b, r.bid, v)
      || (v == u && r.reply == Done(OfferPlaced) && OfferOf(r.bid, v).rate == price && OfferOf(r.bid, v).createdRateAt == now)
  {
    NoAutoAccept(b, u, price, access, rows, now);
  }

  lemma StoredStep(b: Bid, e: Event, u: UserId)
    requires OwnerRow(b) && Enabled(b, e.now, e) && HasOffer(Step(b, e).bid, u)
    ensures var c := Step(b, e);
      || SameOffer(b, c.bid, u)
      || (e.op.OpNewPrice? && e.op.requester == u && c.reply == Done(OfferPlaced)
          && OfferOf(c.bid, u).rate == e.op.price && OfferOf(c.bid, u).createdRateAt == e.now)
  {
    if e.op.OpVote? {
      assert Step(b, e) == VoteOn(b, e.op.offerer, e.op.voter, e.op.accept, e.now);
      StoredByVote(b, e.op.offerer, e.op.voter, e.op.accept, e.now, u);
    } else if e.op.OpNewPrice? {
      assert Step(b, e) == NewPrice(b, e.op.requester, e.op.price, e.op.access, e.op.rows, e.now);
      StoredByPrice(b, e.op.requester, e.op.price, e.op.access, e.op.rows, e.now, u);
    } else {
      StoredByOther(b, e, u);
    }
  }

  lemma StoredByOther(b: Bid, e: Event, u: UserId)
    requires !e.op.OpVote? && !e.op.OpNewPrice? && HasOffer(Step(b, e).bid, u)
    ensures SameOffer(b, Step(b, e).bid, u)
  {
  }

  /** An offer found at the end of a run that began without one was placed in the run, by its user, at that price and second. */
  lemma {:induction false} StoredWasPlaced(b: Bid, now: int, events: seq<Event>, u: UserId)
    requires Inv(b, now) && IsRun(b, now, events) && !HasOffer(b, u) && HasOffer(Exec(b, events), u)
    ensures exists k: nat :: PlacedAt(b, events, k, u)
    decreases |events|
  {
    var n := |events| - 1;
    RunSnoc(b, now, events);
    var early := events[..n];
    var c := Exec(b, early);
    InvRun(b, now, early);
    InvLater(c, EndTime(now, early), events[n].now);
    StoredStep(c, events[n], u);
    if SameOffer(c, Exec(b, events), u) {
      StoredWasPlaced(b, now, early, u);
      var k: nat :| PlacedAt(b, early, k, u);
      assert early[..k] == events[..k] && early[k] == events[k];
      assert PlacedAt(b, events, k, u);
    } else {
      assert PlacedAt(b, events, n, u);
    }
  }

  /** The event decides the stored offer of `u`: a vote on it is taken, or it is resolved. */
  predicate Decides(b: Bid, e: Event, u: UserId) {
    || (e.op.OpVote? && e.op.offerer == u && Step(b, e).reply.Done?)
    || (e.op.OpResolve? && e.op.offerer == u
        && (Step(b, e).reply == Done(ExpiredAccepted) || Step(b, e).reply == Done(ExpiredTooHigh)))
  }

  /**
   A rejected placement is never accepted, voted on or resolved afterwards: whatever decides an offer of its user
   later in the run decides one that the user has placed since the reject.
   */
  lemma RejectedIsFinal(b: Bid, now: int, reject: Event, events: seq<Event>, e: Event)
    requires Inv(b, now) && Enabled(b, now, reject) && reject.op.OpVote? && Step(b, reject).reply == Done(OfferRejected)
    requires IsRun(Step(b, reject).bid, reject.now, events)
    requires Decides(Exec(Step(b, reject).bid, events), e, reject.op.offerer)
    ensures exists k: nat :: PlacedAt(Step(b, reject).bid, events, k, reject.op.offerer)
  {
    var u := reject.op.offerer;
    var c := Step(b, reject).bid;
    InvStep(b, now, reject);
    assert Step(b, reject) == VoteOn(b, u, reject.op.voter, reject.op.accept, reject.now);
    RejectEffect(b, u, reject.op.voter, reject.op.accept, reject.now);
    DecidedIsStored(Exec(c, events), e, u);
    StoredWasPlaced(c, reject.now, events, u);
  }

  lemma DecidedIsStored(b: Bid, e: Event, u: UserId)
    requires Decides(b, e, u)
    ensures HasOffer(b, u)
  {
    if e.op.OpVote? {
      assert Step(b, e) == VoteOn(b, e.op.offerer, e.op.voter, e.op.accept, e.now);
    }
  }
}
