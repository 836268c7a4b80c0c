/**
 One bid of the rate auction: its row, its participant rows, and what each request or
 cron tick does to them. Every request is one atomic step at a whole second `now`.

 The three nullable offer columns of a participant row (rate, created_rate_at, user_votes)
 are always written together by the service, so they are one optional `Offer` here.
 */
module Auction {
  import opened Options

  type UserId = string

  const TIMER := 15 * 60
  const FRESH := 4 * 60
  const MAX_ACTIVE_OFFERS := 3
  const MAX_EXTEND := 3 * TIMER
  const ARCHIVE_IDLE := 12 * 3600
  const PURGE_AFTER := 15 * 24 * 3600

  datatype Vote = Pending | Accepted | Rejected

  /** One entry of the voter snapshot frozen when an offer is placed. */
  datatype Voter = Voter(userId: UserId, vote: Vote, plusOneCreatedAt: int)

  datatype Offer = Offer(rate: real, createdRateAt: int, votes: seq<Voter>)

  datatype Participant = Participant(isOwner: bool, createdAt: int, updatedAt: int, offer: Option<Offer>)

  datatype Bid = Bid(
    ownerId: UserId,
    rate: real,
    isRateChange: bool,
    isArchive: bool,
    isDoNotBid: bool,
    createdAt: int,
    updatedAt: int,
    participants: map<UserId, Participant>)

  /** What the chat tables say about the requester: the bid's chat may be gone, or they may not be in it. */
  datatype ChatAccess = NoChat | NotMember | Member

  datatype Error =
    | BidNotFound | DoNotBidLoad | NoLinkedChat | NotChatMember
    | OwnerCannotJoin | NotBidOwner | NotAllowedToExtend | ParticipantNotFound
    | ExtendLimitReached | TimerExpired
    | TooManyOffers | PlusOneRequired | ActiveOfferExists | NotBelowBidRate | NotBelowActiveOffers
    | OwnerRowMissing
    | OwnOffer | OfferNotFound | NotEligible | AlreadyVoted | PlusOneRestarted | LockedToOtherOffer
    | OfferStillFresh

  datatype Status =
    | OwnerSlot | AlreadyJoined | Rejoined | Joined
    | Extended
    | RateChanged | AutoAccepted | OfferPlaced
    | OfferRejected | OfferAccepted | VotePending
    | ExpiredAccepted | ExpiredTooHigh | AlreadyCleared
    | NotIdle | Archived

  datatype Reply = Done(status: Status) | Failed(error: Error)

  datatype Outcome = Outcome(bid: Bid, reply: Reply)

  // ---------------------------------------------------------------- clocks and lookups

  predicate TimerActive(updatedAt: int, now: int) {
    updatedAt + TIMER > now
  }

  /** The strict window, used by votes and by expiry. */
  predicate IsFresh(o: Offer, now: int) {
    o.createdRateAt + FRESH > now
  }

  /** The closed window, used by the database filters. */
  predicate InWindow(o: Offer, now: int) {
    o.createdRateAt >= now - FRESH
  }

  predicate HasOffer(b: Bid, u: UserId) {
    u in b.participants && b.participants[u].offer.Some?
  }

  function OfferOf(b: Bid, u: UserId): Offer
    requires HasOffer(b, u)
  {
    b.participants[u].offer.value
  }

  predicate HasFreshOffer(b: Bid, u: UserId, now: int) {
    HasOffer(b, u) && IsFresh(OfferOf(b, u), now)
  }

  predicate HasActiveOffer(b: Bid, u: UserId, now: int) {
    HasOffer(b, u) && InWindow(OfferOf(b, u), now)
  }

  function ActiveOfferers(b: Bid, now: int): set<UserId> {
    set u | u in b.participants && HasActiveOffer(b, u, now)
  }

  predicate IsPlusOne(b: Bid, u: UserId) {
    u in b.participants && !b.participants[u].isOwner
  }

  predicate PlusOneRunning(b: Bid, u: UserId, now: int) {
    IsPlusOne(b, u) && TimerActive(b.participants[u].updatedAt, now)
  }

  predicate SomePlusOneRunning(b: Bid, now: int) {
    exists u | u in b.participants :: PlusOneRunning(b, u, now)
  }

  /** `rows` is an order in which the database may return the participant rows. */
  ghost predicate EnumeratesRows(rows: seq<UserId>, b: Bid) {
    && (forall u :: u in rows <==> u in b.participants)
    && forall i, j :: 0 <= i < j < |rows| ==> rows[i] != rows[j]
  }

  // ---------------------------------------------------------------- row updates

  function SetOffer(b: Bid, u: UserId, o: Option<Offer>): Bid
    requires u in b.participants
  {
    b.(participants := b.participants[u := b.participants[u].(offer := o)])
  }

  function ClearOffer(b: Bid, u: UserId): Bid {
    if u in b.participants then SetOffer(b, u, None) else b
  }

  function ClearOtherOffers(b: Bid, keep: UserId): Bid {
    b.(participants := map u | u in b.participants ::
      if u == keep then b.participants[u] else b.participants[u].(offer := None))
  }

  function RestartPlusOne(b: Bid, u: UserId, now: int): Bid {
    if IsPlusOne(b, u)
    then b.(participants := b.participants[u := b.participants[u].(createdAt := now, updatedAt := now)])
    else b
  }

  /** A write of the official rate starts a fresh card cycle and un-archives the bid. */
  function WriteMainRate(b: Bid, rate: real, now: int): Bid {
    b.(rate := rate, isRateChange := true, createdAt := now, updatedAt := now, isArchive := false)
  }

  // ---------------------------------------------------------------- create, join, extend

  function Created(owner: UserId, rate: real, isDoNotBid: bool, now: int): Bid {
    Bid(owner, rate, false, false, isDoNotBid, now, now, map[owner := Participant(true, now, now, None)])
  }

  function Join(b: Bid, u: UserId, hiddenAdmin: bool, access: ChatAccess, now: int): Outcome {
    if b.isDoNotBid then Outcome(b, Failed(DoNotBidLoad))
    else if u == b.ownerId && !hiddenAdmin then Outcome(b, Failed(OwnerCannotJoin))
    else if access != Member then Outcome(b, Failed(NotChatMember))
    else if u !in b.participants then
      Outcome(b.(participants := b.participants[u := Participant(false, now, now, None)]), Done(Joined))
    else if b.participants[u].isOwner then Outcome(b, Done(OwnerSlot))
    else if TimerActive(b.participants[u].updatedAt, now) then Outcome(b, Done(AlreadyJoined))
    else Outcome(RestartPlusOne(b, u, now), Done(Rejoined))
  }

  /** Why a timer with these stamps may not be extended at `now`, if it may not. */
  function ExtendError(createdAt: int, updatedAt: int, now: int): Option<Error> {
    if updatedAt - createdAt >= MAX_EXTEND then Some(ExtendLimitReached)
    else if !TimerActive(updatedAt, now) then Some(TimerExpired)
    else if updatedAt + TIMER - createdAt > MAX_EXTEND then Some(ExtendLimitReached)
    else None
  }

  function ExtendBid(b: Bid, requester: UserId, now: int): Outcome {
    if requester != b.ownerId then Outcome(b, Failed(NotBidOwner))
    else match ExtendError(b.createdAt, b.updatedAt, now)
      case Some(e) => Outcome(b, Failed(e))
      case None => Outcome(b.(updatedAt := b.updatedAt + TIMER), Done(Extended))
  }

  function ExtendPlusOne(b: Bid, requester: UserId, target: Option<UserId>, now: int): Outcome {
    var u := if target.Some? then target.value else requester;
    if requester != b.ownerId && u != requester then Outcome(b, Failed(NotAllowedToExtend))
    else if !IsPlusOne(b, u) then Outcome(b, Failed(ParticipantNotFound))
    else
      var p := b.participants[u];
      match ExtendError(p.createdAt, p.updatedAt, now)
      case Some(e) => Outcome(b, Failed(e))
      case None =>
        Outcome(b.(participants := b.participants[u := p.(updatedAt := p.updatedAt + TIMER)]), Done(Extended))
  }

  // ---------------------------------------------------------------- placing a price

  /** The +1 voters other than the offerer, in row order. */
  function PlusOneVoters(b: Bid, rows: seq<UserId>, offerer: UserId, now: int): seq<Voter> {
    if rows == [] then []
    else
      var u := rows[|rows| - 1];
      var earlier := PlusOneVoters(b, rows[..|rows| - 1], offerer, now);
      if u != offerer && PlusOneRunning(b, u, now)
      then earlier + [Voter(u, Pending, b.participants[u].createdAt)]
      else earlier
  }

  predicate Includes(votes: seq<Voter>, u: UserId) {
    exists i | 0 <= i < |votes| :: votes[i].userId == u
  }

  /** The frozen voters of a new offer: the running +1 users, and always the owner. */
  function Snapshot(b: Bid, rows: seq<UserId>, offerer: UserId, now: int): seq<Voter> {
    var votes := PlusOneVoters(b, rows, offerer, now);
    if b.ownerId != offerer && !Includes(votes, b.ownerId)
    then votes + [Voter(b.ownerId, Pending, 0)]
    else votes
  }

  /** The new price undercuts every offer in the closed window. */
  predicate BelowActiveOffers(b: Bid, price: real, now: int) {
    forall v | v in b.participants && HasActiveOffer(b, v, now) :: price < OfferOf(b, v).rate
  }

  function OfferPriceError(b: Bid, u: UserId, price: real, now: int): Option<Error> {
    if HasFreshOffer(b, u, now) then Some(ActiveOfferExists)
    else if price >= b.rate then Some(NotBelowBidRate)
    else if !BelowActiveOffers(b, price, now) then Some(NotBelowActiveOffers)
    else None
  }

  /** The owner writes the official rate directly exactly when no +1 timer is running. */
  predicate WritesDirectly(b: Bid, requester: UserId, now: int) {
    requester == b.ownerId && !SomePlusOneRunning(b, now)
  }

  function PriceError(b: Bid, u: UserId, price: real, access: ChatAccess, now: int): Option<Error> {
    if b.isDoNotBid then Some(DoNotBidLoad)
    else if access == NoChat then Some(NoLinkedChat)
    else if access == NotMember then Some(NotChatMember)
    else if |ActiveOfferers(b, now)| >= MAX_ACTIVE_OFFERS then Some(TooManyOffers)
    else if u == b.ownerId then
      if WritesDirectly(b, u, now) then None
      else
        match OfferPriceError(b, u, price, now)
        case Some(e) => Some(e)
        case None => if u in b.participants && b.participants[u].isOwner then None else Some(OwnerRowMissing)
    else if !IsPlusOne(b, u) then Some(PlusOneRequired)
    else if !TimerActive(b.participants[u].updatedAt, now) then Some(TimerExpired)
    else OfferPriceError(b, u, price, now)
  }

  function NewPrice(b: Bid, u: UserId, price: real, access: ChatAccess, rows: seq<UserId>, now: int): Outcome {
    match PriceError(b, u, price, access, now)
    case Some(e) => Outcome(b, Failed(e))
    case None =>
      if WritesDirectly(b, u, now) then Outcome(WriteMainRate(b, price, now), Done(RateChanged))
      else
        var votes := Snapshot(b, rows, u, now);
        if u != b.ownerId && votes == []
        then Outcome(ClearOffer(WriteMainRate(b, price, now), u), Done(AutoAccepted))
        else Outcome(SetOffer(b, u, Some(Offer(price, now, votes))), Done(OfferPlaced))
  }

  // ---------------------------------------------------------------- voting

  /** Position of the first entry of `u`, or |votes|. */
  function FindVoter(votes: seq<Voter>, u: UserId): (i: nat)
    ensures i <= |votes|
    ensures i < |votes| ==> votes[i].userId == u
    ensures forall k :: 0 <= k < i ==> votes[k].userId != u
  {
    if votes == [] || votes[0].userId == u then 0 else 1 + FindVoter(votes[1..], u)
  }

  /** The owner may vote on a snapshot taken without them: an entry is appended first. */
  function BallotOf(b: Bid, offerer: UserId, voter: UserId): seq<Voter>
    requires HasOffer(b, offerer)
  {
    var votes := OfferOf(b, offerer).votes;
    if voter == b.ownerId && FindVoter(votes, voter) == |votes|
    then votes + [Voter(voter, Pending, 0)]
    else votes
  }

  predicate CanUserVote(b: Bid, entry: Voter, voter: UserId, now: int) {
    && entry.vote == Pending
    && (voter == b.ownerId
        || (&& PlusOneRunning(b, voter, now)
            && b.participants[voter].createdAt == entry.plusOneCreatedAt))
  }

  predicate HasAccepted(votes: seq<Voter>, voter: UserId) {
    exists i | 0 <= i < |votes| :: votes[i].userId == voter && votes[i].vote == Accepted
  }

  /** An accept on another offer of the window locks the voter to that one. */
  predicate LockedElsewhere(b: Bid, voter: UserId, offerer: UserId, now: int) {
    exists w | w in b.participants ::
      w != offerer && HasActiveOffer(b, w, now) && HasAccepted(OfferOf(b, w).votes, voter)
  }

  function VoteError(b: Bid, offerer: UserId, voter: UserId, now: int): Option<Error> {
    if offerer == voter then Some(OwnOffer)
    else if b.isDoNotBid then Some(DoNotBidLoad)
    else if !HasFreshOffer(b, offerer, now) then Some(OfferNotFound)
    else
      var votes := BallotOf(b, offerer, voter);
      var i := FindVoter(votes, voter);
      if i == |votes| then Some(NotEligible)
      else if votes[i].vote != Pending then Some(AlreadyVoted)
      else if !CanUserVote(b, votes[i], voter, now) then Some(PlusOneRestarted)
      else if LockedElsewhere(b, voter, offerer, now) then Some(LockedToOtherOffer)
      else None
  }

  predicate AllAccepted(votes: seq<Voter>) {
    |votes| > 0 && forall i | 0 <= i < |votes| :: votes[i].vote == Accepted
  }

  /** The ballot after `voter` accepts. */
  function AcceptedBallot(b: Bid, offerer: UserId, voter: UserId): seq<Voter>
    requires HasOffer(b, offerer)
  {
    var votes := BallotOf(b, offerer, voter);
    var i := FindVoter(votes, voter);
    if i < |votes| then votes[i := votes[i].(vote := Accepted)] else votes
  }

  /** Recording an accept: every other offer is dropped and the voter's +1 cycle restarts. */
  function RecordAccept(b: Bid, offerer: UserId, voter: UserId, now: int): Bid
    requires HasOffer(b, offerer)
  {
    var offer := OfferOf(b, offerer).(votes := AcceptedBallot(b, offerer, voter));
    var b1 := SetOffer(ClearOtherOffers(b, offerer), offerer, Some(offer));
    if voter == b.ownerId then b1 else RestartPlusOne(b1, voter, now)
  }

  function VoteOn(b: Bid, offerer: UserId, voter: UserId, accept: bool, now: int): Outcome {
    match VoteError(b, offerer, voter, now)
    case Some(e) => Outcome(b, Failed(e))
    case None =>
      if !accept then Outcome(ClearOffer(b, offerer), Done(OfferRejected))
      else
        var recorded := RecordAccept(b, offerer, voter, now);
        if AllAccepted(AcceptedBallot(b, offerer, voter))
        then Outcome(ClearOffer(WriteMainRate(recorded, OfferOf(b, offerer).rate, now), offerer), Done(OfferAccepted))
        else Outcome(recorded, Done(VotePending))
  }

  // ---------------------------------------------------------------- expiry and archiving

  /** An expired offer that nobody rejected is applied, unless it is above the official rate. */
  function Resolve(b: Bid, offerer: UserId, now: int): Outcome {
    if !HasOffer(b, offerer) then Outcome(b, Done(AlreadyCleared))
    else if IsFresh(OfferOf(b, offerer), now) then Outcome(b, Failed(OfferStillFresh))
    else
      var rate := OfferOf(b, offerer).rate;
      if rate <= b.rate
      then Outcome(WriteMainRate(ClearOffer(b, offerer), rate, now), Done(ExpiredAccepted))
      else Outcome(ClearOffer(b, offerer), Done(ExpiredTooHigh))
  }

  function ArchiveIfIdle(b: Bid, now: int): Outcome {
    if !b.isArchive && b.updatedAt < now - ARCHIVE_IDLE
    then Outcome(b.(isArchive := true, updatedAt := now), Done(Archived))
    else Outcome(b, Done(NotIdle))
  }

  predicate PurgeDue(b: Bid, now: int) {
    b.isArchive && b.updatedAt < now - PURGE_AFTER
  }

  // ---------------------------------------------------------------- steps and runs

  datatype Op =
    | OpJoin(user: UserId, hiddenAdmin: bool, access: ChatAccess)
    | OpExtendBid(requester: UserId)
    | OpExtendPlusOne(requester: UserId, target: Option<UserId>)
    | OpNewPrice(requester: UserId, price: real, access: ChatAccess, rows: seq<UserId>)
    | OpVote(offerer: UserId, voter: UserId, accept: bool)
    | OpResolve(offerer: UserId)
    | OpArchive

  datatype Event = Event(op: Op, now: int)

  function Step(b: Bid, e: Event): Outcome {
    match e.op
    case OpJoin(u, hidden, access) => Join(b, u, hidden, access, e.now)
    case OpExtendBid(u) => ExtendBid(b, u, e.now)
    case OpExtendPlusOne(u, target) => ExtendPlusOne(b, u, target, e.now)
    case OpNewPrice(u, price, access, rows) => NewPrice(b, u, price, access, rows, e.now)
    case OpVote(offerer, voter, accept) => VoteOn(b, offerer, voter, accept, e.now)
    case OpResolve(offerer) => Resolve(b, offerer, e.now)
    case OpArchive => ArchiveIfIdle(b, e.now)
  }

  /** The step is possible: the clock has not gone back and the row order is one of this bid's. */
  ghost predicate Enabled(b: Bid, now: int, e: Event) {
    && now <= e.now
    && (e.op.OpNewPrice? ==> EnumeratesRows(e.op.rows, b))
  }

  /** `events` is a possible run from `b` at time `now`. */
  ghost predicate IsRun(b: Bid, now: int, events: seq<Event>)
    decreases |events|
  {
    events == [] ||
    (Enabled(b, now, events[0]) && IsRun(Step(b, events[0]).bid, events[0].now, events[1..]))
  }

  function Exec(b: Bid, events: seq<Event>): Bid
    decreases |events|
  {
    if events == [] then b else Exec(Step(b, events[0]).bid, events[1..])
  }

  function EndTime(now: int, events: seq<Event>): int {
    if events == [] then now else events[|events| - 1].now
  }
}
