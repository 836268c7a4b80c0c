/** What votes mean over a whole run: who could cast them, and what an accepted offer had behind it. */
module AuctionVoting {
  import opened Options
  import opened Auction
  import opened AuctionInvariant
  import opened AuctionRuns

  // ---------------------------------------------------------------- the flag shown to a viewer

  /** `listing` is the list of the offers in the closed window, newest first. */
  ghost predicate IsListing(listing: seq<UserId>, b: Bid, now: int) {
    && (forall u :: u in listing <==> HasActiveOffer(b, u, now))
    && (forall i, j :: 0 <= i < j < |listing| ==> listing[i] != listing[j])
    && (forall i, j :: 0 <= i < j < |listing| && HasOffer(b, listing[i]) && HasOffer(b, listing[j]) ==>
          OfferOf(b, listing[j]).createdRateAt <= OfferOf(b, listing[i]).createdRateAt)
  }

  /** The first listed offer the viewer accepted. */
  function FirstLock(b: Bid, listing: seq<UserId>, viewer: UserId): (r: Option<UserId>)
    requires forall u | u in listing :: HasOffer(b, u)
    ensures r.Some? ==> r.value in listing && HasAccepted(OfferOf(b, r.value).votes, viewer)
    ensures r.None? ==> forall u | u in listing :: !HasAccepted(OfferOf(b, u).votes, viewer)
  {
    if listing == [] then None
    else if HasAccepted(OfferOf(b, listing[0]).votes, viewer) then Some(listing[0])
    else FirstLock(b, listing[1..], viewer)
  }

  predicate Eligible(b: Bid, viewer: UserId, offerer: UserId, now: int)
    requires HasOffer(b, offerer)
  {
    var votes := OfferOf(b, offerer).votes;
    var i := FindVoter(votes, viewer);
    && offerer != viewer
    && if viewer == b.ownerId then i == |votes| || votes[i].vote == Pending
       else i < |votes| && CanUserVote(b, votes[i], viewer, now)
  }

  predicate CanVoteFlag(b: Bid, viewer: UserId, offerer: UserId, listing: seq<UserId>, now: int)
    requires HasOffer(b, offerer) && forall u | u in listing :: HasOffer(b, u)
  {
    var lock := FirstLock(b, listing, viewer);
    Eligible(b, viewer, offerer, now) && (lock == None || lock == Some(offerer))
  }

  /**
   The flag is right except in one second: a vote passes all its guards exactly when the offer is listed,
   the flag is set, and the offer is not in the last second of its closed window.
   */
  lemma FlagMeansVotePasses(b: Bid, viewer: UserId, offerer: UserId, listing: seq<UserId>, now: int)
    requires Inv(b, now) && IsListing(listing, b, now)
    ensures VoteError(b, offerer, viewer, now).None? <==>
      && offerer in listing
      && CanVoteFlag(b, viewer, offerer, listing, now)
      && OfferOf(b, offerer).createdRateAt + FRESH != now
  {
    if HasActiveOffer(b, offerer, now) && offerer != viewer {
      assert SnapshotOk(b, offerer, OfferOf(b, offerer));
      BallotIsSnapshot(b, offerer, viewer, now);
      LockAgrees(b, viewer, offerer, listing, now);
    }
  }

  /** For a viewer with a pending entry the first lock in the list is the lock the vote looks for. */
  lemma LockAgrees(b: Bid, viewer: UserId, offerer: UserId, listing: seq<UserId>, now: int)
    requires Inv(b, now) && IsListing(listing, b, now) && HasActiveOffer(b, offerer, now) && offerer != viewer
    requires forall u | u in listing :: HasOffer(b, u)
    ensures var lock := FirstLock(b, listing, viewer);
      (lock == None || lock == Some(offerer)) <==> !LockedElsewhere(b, viewer, offerer, now)
    ensures var votes := OfferOf(b, offerer).votes; var i := FindVoter(votes, viewer);
      HasAccepted(votes, viewer) ==> i < |votes| && votes[i].vote == Accepted
  {
    var lock := FirstLock(b, listing, viewer);
    assert SnapshotOk(b, offerer, OfferOf(b, offerer));
    if lock.Some? && lock.value != offerer {
      assert LockedElsewhere(b, viewer, offerer, now);
    }
    if LockedElsewhere(b, viewer, offerer, now) {
      assert lock.Some?;
      OnlyLock(b, viewer, offerer, lock.value, now);
    }
  }

  /** One stored offer at most holds an accept, so a lock elsewhere rules out a lock here. */
  lemma OnlyLock(b: Bid, viewer: UserId, offerer: UserId, lock: UserId, now: int)
    requires OneAccepted(b) && LockedElsewhere(b, viewer, offerer, now)
    requires HasOffer(b, lock) && HasAccepted(OfferOf(b, lock).votes, viewer)
    ensures lock != offerer
  {
    var w :| w in b.participants && w != offerer && HasActiveOffer(b, w, now) && HasAccepted(OfferOf(b, w).votes, viewer);
    assert AnyAccepted(OfferOf(b, w).votes);
    assert AnyAccepted(OfferOf(b, lock).votes);
  }

  /** In its last listed second an offer can no longer be voted on, whatever its flag says. */
  lemma LastSecondRefused(b: Bid, viewer: UserId, offerer: UserId, now: int)
    requires HasActiveOffer(b, offerer, now) && OfferOf(b, offerer).createdRateAt + FRESH == now
    requires !b.isDoNotBid && offerer != viewer
    ensures VoteError(b, offerer, viewer, now) == Some(OfferNotFound)
  {
  }

  // ---------------------------------------------------------------- what an acceptance needs

  /** A vote writes the official rate exactly when it is the last accept still missing. */
  lemma OfferAcceptedExactlyWhen(b: Bid, offerer: UserId, voter: UserId, accept: bool, now: int)
    requires Inv(b, now)
    ensures VoteOn(b, offerer, voter, accept, now).reply == Done(OfferAccepted) <==>
      && accept
      && VoteError(b, offerer, voter, now).None?
      && forall i | 0 <= i < |OfferOf(b, offerer).votes| ::
           var entry := OfferOf(b, offerer).votes[i]; entry.vote == Accepted || entry.userId == voter
  {
    if accept && VoteError(b, offerer, voter, now).None? {
      BallotIsSnapshot(b, offerer, voter, now);
      var votes := OfferOf(b, offerer).votes;
      var after := AcceptedBallot(b, offerer, voter);
      var k := FindVoter(votes, voter);
      assert SnapshotOk(b, offerer, OfferOf(b, offerer));
      assert forall i | 0 <= i < |votes| && i != k :: after[i] == votes[i] && votes[i].userId != voter;
      assert AllAccepted(after) <==> forall i | 0 <= i < |votes| && i != k :: votes[i].vote == Accepted;
    }
  }

  /** `u`'s stored offer holds an accept of `w`. */
  predicate Backed(b: Bid, u: UserId, w: UserId) {
    HasOffer(b, u) && HasAccepted(OfferOf(b, u).votes, w)
  }

  /** The same placement: votes may have been marked since, nothing else. */
  predicate SamePlacement(b: Bid, c: Bid, u: UserId) {
    && HasOffer(b, u) && HasOffer(c, u)
    && OfferOf(b, u).rate == OfferOf(c, u).rate
    && OfferOf(b, u).createdRateAt == OfferOf(c, u).createdRateAt
  }

  predicate CastsAccept(b: Bid, e: Event, u: UserId, w: UserId) {
    && e.op == OpVote(u, w, true)
    && VoteError(b, u, w, e.now).None?
  }

  lemma BackedByNewPrice(b: Bid, e: Event, u: UserId, w: UserId)
    requires OwnerRow(b) && Enabled(b, e.now, e) && e.op.OpNewPrice?
    requires Backed(Step(b, e).bid, u, w)
    ensures Backed(b, u, w) && SamePlacement(b, Step(b, e).bid, u)
  {
    var r, price, access, rows := e.op.requester, e.op.price, e.op.access, e.op.rows;
    var c := NewPrice(b, r, price, access, rows, e.now).bid;
    assert Step(b, e).bid == c;
    SnapshotVoters(b, rows, r, e.now);
    NoAutoAccept(b, r, price, access, rows, e.now);
    assert u != r ==> HasOffer(b, u) && OfferOf(b, u) == OfferOf(c, u);
  }

  lemma BackedByAccept(b: Bid, now: int, offerer: UserId, voter: UserId, w: UserId)
    requires Inv(b, now) && VoteError(b, offerer, voter, now).None?
    requires HasAccepted(AcceptedBallot(b, offerer, voter), w)
    ensures Backed(b, offerer, w) || w == voter
  {
    BallotIsSnapshot(b, offerer, voter, now);
    MarkedEntry(OfferOf(b, offerer).votes, FindVoter(OfferOf(b, offerer).votes, voter), w);
  }

  lemma BackedByVote(b: Bid, now: int, offerer: UserId, voter: UserId, accept: bool, u: UserId, w: UserId)
    requires Inv(b, now)
    requires Backed(VoteOn(b, offerer, voter, accept, now).bid, u, w)
    ensures SamePlacement(b, VoteOn(b, offerer, voter, accept, now).bid, u)
    ensures Backed(b, u, w) || CastsAccept(b, Event(OpVote(offerer, voter, accept), now), u, w)
  {
    if VoteError(b, offerer, voter, now).None? {
      if accept {
        LeftByAccept(b, now, offerer, voter, u);
        BackedByAccept(b, now, offerer, voter, w);
      } else {
        assert HasOffer(b, u) && OfferOf(b, u) == OfferOf(ClearOffer(b, offerer), u);
      }
    }
  }

  /** An offer still stored after an accept is the accepted one, with the new ballot. */
  lemma LeftByAccept(b: Bid, now: int, offerer: UserId, voter: UserId, u: UserId)
    requires VoteError(b, offerer, voter, now).None?
    requires HasOffer(VoteOn(b, offerer, voter, true, now).bid, u)
    ensures u == offerer
    ensures OfferOf(VoteOn(b, offerer, voter, true, now).bid, u)
      == OfferOf(b, offerer).(votes := AcceptedBallot(b, offerer, voter))
  {
    var recorded := RecordAccept(b, offerer, voter, now);
    OnlyOfferLeft(b, offerer, voter, now);
    NoneLeft(recorded, offerer, OfferOf(b, offerer).rate, now);
    assert VoteOn(b, offerer, voter, true, now).bid == recorded;
  }

  /** Marking one entry accepted adds an accept of that entry's voter only. */
  lemma MarkedEntry(votes: seq<Voter>, k: nat, w: UserId)
    requires k < |votes|
    ensures HasAccepted(votes[k := votes[k].(vote := Accepted)], w) ==> HasAccepted(votes, w) || votes[k].userId == w
  {
    var after := votes[k := votes[k].(vote := Accepted)];
    if HasAccepted(after, w) {
      var i :| 0 <= i < |after| && after[i].userId == w && after[i].vote == Accepted;
      assert i != k ==> votes[i] == after[i];
    }
  }

  /** Joining, extending, resolving and archiving touch no stored ballot. */
  lemma BackedByOther(b: Bid, e: Event, u: UserId, w: UserId)
    requires !e.op.OpNewPrice? && !e.op.OpVote? && Backed(Step(b, e).bid, u, w)
    ensures SamePlacement(b, Step(b, e).bid, u) && Backed(b, u, w)
  {
    assert HasOffer(b, u) && OfferOf(b, u) == OfferOf(Step(b, e).bid, u);
  }

  /** An accept in a stored offer was there before the step, or this step cast it. */
  lemma BackedStep(b: Bid, now: int, e: Event, u: UserId, w: UserId)
    requires Inv(b, now) && Enabled(b, now, e) && Backed(Step(b, e).bid, u, w)
    ensures SamePlacement(b, Step(b, e).bid, u)
    ensures Backed(b, u, w) || CastsAccept(b, e, u, w)
  {
    InvLater(b, now, e.now);
    if e.op.OpNewPrice? {
      BackedByNewPrice(b, e, u, w);
    } else if e.op.OpVote? {
      var v := e.op;
      assert Step(b, e) == VoteOn(b, v.offerer, v.voter, v.accept, e.now);
      BackedByVote(b, e.now, v.offerer, v.voter, v.accept, u, w);
      assert e == Event(OpVote(v.offerer, v.voter, v.accept), e.now);
    } else {
      BackedByOther(b, e, u, w);
    }
  }

  /** `w` accepted this very placement of `u` at event `k`, and it has been stored ever since. */
  ghost predicate AcceptCastAt(b: Bid, events: seq<Event>, k: nat, u: UserId, w: UserId) {
    && k < |events|
    && CastsAccept(Exec(b, events[..k]), events[k], u, w)
    && forall j | k <= j <= |events| :: SamePlacement(Exec(b, events[..j]), Exec(b, events), u)
  }

  /**
   Every accept in a stored offer was cast by that voter, through a vote that passed all its guards,
   on this very placement.
   */
  lemma {:induction false} AcceptsWereCast(b: Bid, now: int, events: seq<Event>, u: UserId, w: UserId)
    requires Inv(b, now) && IsRun(b, now, events) && !Backed(b, u, w)
    requires Backed(Exec(b, events), u, w)
    ensures exists k: nat :: AcceptCastAt(b, events, k, u, w)
    decreases |events|
  {
    var n := |events| - 1;
    LastStepBacked(b, now, events, u, w);
    if Backed(Exec(b, events[..n]), u, w) {
      RunSnoc(b, now, events);
      AcceptsWereCast(b, now, events[..n], u, w);
      var k: nat :| AcceptCastAt(b, events[..n], k, u, w);
      AcceptCastExtends(b, events, k, u, w);
    } else {
      CastAtLast(b, events, n, u, w);
    }
  }

  lemma CastAtLast(b: Bid, events: seq<Event>, n: nat, u: UserId, w: UserId)
    requires |events| == n + 1
    requires CastsAccept(Exec(b, events[..n]), events[n], u, w)
    requires SamePlacement(Exec(b, events[..n]), Exec(b, events), u)
    ensures AcceptCastAt(b, events, n, u, w)
  {
    forall j | n <= j <= |events| ensures SamePlacement(Exec(b, events[..j]), Exec(b, events), u) {
      if j == n + 1 {
        assert events[..j] == events;
      }
    }
  }

  lemma LastStepBacked(b: Bid, now: int, events: seq<Event>, u: UserId, w: UserId)
    requires Inv(b, now) && IsRun(b, now, events) && !Backed(b, u, w) && Backed(Exec(b, events), u, w)
    ensures events != []
    ensures var early := events[..|events| - 1];
      && SamePlacement(Exec(b, early), Exec(b, events), u)
      && (Backed(Exec(b, early), u, w) || CastsAccept(Exec(b, early), events[|events| - 1], u, w))
  {
    RunSnoc(b, now, events);
    var early := events[..|events| - 1];
    InvRun(b, now, early);
    BackedStep(Exec(b, early), EndTime(now, early), events[|events| - 1], u, w);
  }

  lemma AcceptCastExtends(b: Bid, events: seq<Event>, k: nat, u: UserId, w: UserId)
    requires events != [] && AcceptCastAt(b, events[..|events| - 1], k, u, w)
    requires SamePlacement(Exec(b, events[..|events| - 1]), Exec(b, events), u)
    ensures AcceptCastAt(b, events, k, u, w)
  {
    var early := events[..|events| - 1];
    assert early[..k] == events[..k];
    forall j | k <= j <= |events| ensures SamePlacement(Exec(b, events[..j]), Exec(b, events), u) {
      if j < |events| {
        assert early[..j] == events[..j];
        assert SamePlacement(Exec(b, early[..j]), Exec(b, early), u);
      } else {
        assert events[..j] == events;
      }
    }
  }

  /**
   When a vote at the end of a run of a new bid writes the official rate, every snapshot voter but the one
   voting now had accepted that very placement earlier in the run.
   */
  lemma AcceptedByEveryone(owner: UserId, rate: real, isDoNotBid: bool, start: int, events: seq<Event>,
                           offerer: UserId, voter: UserId, now: int)
    requires IsRun(Created(owner, rate, isDoNotBid, start), start, events) && EndTime(start, events) <= now
    requires VoteOn(Exec(Created(owner, rate, isDoNotBid, start), events), offerer, voter, true, now).reply == Done(OfferAccepted)
    ensures var b := Created(owner, rate, isDoNotBid, start); var c := Exec(b, events);
      && HasOffer(c, offerer)
      && forall w | Includes(OfferOf(c, offerer).votes, w) && w != voter ::
           exists k: nat :: AcceptCastAt(b, events, k, offerer, w)
  {
    var b := Created(owner, rate, isDoNotBid, start);
    var c := Exec(b, events);
    InvReachable(owner, rate, isDoNotBid, start, events);
    InvLater(c, EndTime(start, events), now);
    OfferAcceptedExactlyWhen(c, offerer, voter, true, now);
    forall w | Includes(OfferOf(c, offerer).votes, w) && w != voter
      ensures exists k: nat :: AcceptCastAt(b, events, k, offerer, w)
    {
      assert Backed(c, offerer, w);
      InvCreated(owner, rate, isDoNotBid, start);
      AcceptsWereCast(b, start, events, offerer, w);
    }
  }

  // ---------------------------------------------------------------- stale snapshots

  /** A re-join strictly advances the +1 cycle; it needs the old timer to have run out. */
  lemma RejoinAdvances(b: Bid, u: UserId, hiddenAdmin: bool, access: ChatAccess, now: int)
    requires Inv(b, now) && Join(b, u, hiddenAdmin, access, now).reply == Done(Rejoined)
    ensures b.participants[u].createdAt < Join(b, u, hiddenAdmin, access, now).bid.participants[u].createdAt
  {
  }

  /** No step takes a +1 row away, makes it the owner's, or moves its cycle back. */
  predicate CyclesKept(b: Bid, c: Bid) {
    forall u | u in b.participants && IsPlusOne(b, u) :: IsPlusOne(c, u) && b.participants[u].createdAt <= c.participants[u].createdAt
  }

  lemma CyclesKeptByVote(b: Bid, offerer: UserId, voter: UserId, accept: bool, now: int)
    requires Inv(b, now)
    ensures CyclesKept(b, VoteOn(b, offerer, voter, accept, now).bid)
  {
    if VoteError(b, offerer, voter, now).None? && accept {
      CyclesAfterAccept(b, offerer, voter, now);
      var c := RecordAccept(b, offerer, voter, now);
      assert CyclesKept(b, c);
      CyclesKeptByClear(WriteMainRate(c, OfferOf(b, offerer).rate, now), offerer);
    }
  }

  lemma CyclesKeptByClear(b: Bid, u: UserId)
    ensures CyclesKept(b, ClearOffer(b, u))
  {
  }

  lemma CyclesKeptByJoin(b: Bid, u: UserId, hiddenAdmin: bool, access: ChatAccess, now: int)
    requires PlusOneClocks(b, now)
    ensures CyclesKept(b, Join(b, u, hiddenAdmin, access, now).bid)
  {
    assert forall v | v in b.participants :: PlusOneClock(b.participants[v], now);
  }

  lemma CyclesKeptByExtend(b: Bid, requester: UserId, target: Option<UserId>, now: int)
    ensures CyclesKept(b, ExtendPlusOne(b, requester, target, now).bid)
  {
  }

  lemma CyclesKeptByOther(b: Bid, e: Event)
    requires PlusOneClocks(b, e.now) && (e.op.OpJoin? || e.op.OpExtendBid? || e.op.OpExtendPlusOne? || e.op.OpArchive?)
    ensures CyclesKept(b, Step(b, e).bid)
  {
    if e.op.OpJoin? {
      CyclesKeptByJoin(b, e.op.user, e.op.hiddenAdmin, e.op.access, e.now);
    } else if e.op.OpExtendPlusOne? {
      CyclesKeptByExtend(b, e.op.requester, e.op.target, e.now);
    } else {
      assert Step(b, e).bid.participants == b.participants;
    }
  }

  lemma CyclesNeverGoBack(b: Bid, now: int, e: Event)
    requires Inv(b, now) && Enabled(b, now, e)
    ensures CyclesKept(b, Step(b, e).bid)
  {
    InvLater(b, now, e.now);
    match e.op {
      case OpVote(offerer, voter, accept) =>
        CyclesKeptByVote(b, offerer, voter, accept, e.now);
      case OpNewPrice(u, price, access, rows) =>
        CyclesKeptByNewPrice(b, u, price, access, rows, e.now);
      case OpResolve(offerer) =>
        CyclesKeptByClear(b, offerer);
      case _ =>
        CyclesKeptByOther(b, e);
    }
  }

  lemma CyclesKeptByNewPrice(b: Bid, u: UserId, price: real, access: ChatAccess, rows: seq<UserId>, now: int)
    ensures CyclesKept(b, NewPrice(b, u, price, access, rows, now).bid)
  {
  }

  lemma {:induction false} CyclesNeverGoBackInRun(b: Bid, now: int, events: seq<Event>)
    requires Inv(b, now) && IsRun(b, now, events)
    ensures CyclesKept(b, Exec(b, events))
    decreases |events|
  {
    if events != [] {
      CyclesNeverGoBack(b, now, events[0]);
      InvStep(b, now, events[0]);
      CyclesNeverGoBackInRun(Step(b, events[0]).bid, events[0].now, events[1..]);
    }
  }

  /** A pending entry with a stamp that its voter's cycle has passed is refused at any time. */
  lemma StaleEntryRefused(c: Bid, at: int, u: UserId, stamp: int, offerer: UserId, later: int)
    requires Inv(c, at) && IsPlusOne(c, u) && stamp < c.participants[u].createdAt && u != c.ownerId
    requires HasOffer(c, offerer) && Voter(u, Pending, stamp) in OfferOf(c, offerer).votes
    ensures VoteError(c, offerer, u, later).Some?
  {
    assert SnapshotOk(c, offerer, OfferOf(c, offerer));
    var votes := OfferOf(c, offerer).votes;
    var i :| 0 <= i < |votes| && votes[i] == Voter(u, Pending, stamp);
    assert FindVoter(votes, u) == i;
  }

  /**
   Once a non-owner's +1 cycle has passed a snapshot's stamp, no later vote of theirs through an entry with
   that stamp passes, in any continuation and at any time.
   */
  lemma StaleVoterNeverVotes(b: Bid, now: int, events: seq<Event>, u: UserId, stamp: int, offerer: UserId, later: int)
    requires Inv(b, now) && IsRun(b, now, events)
    requires IsPlusOne(b, u) && stamp < b.participants[u].createdAt
    requires var c := Exec(b, events);
      HasOffer(c, offerer) && Voter(u, Pending, stamp) in OfferOf(c, offerer).votes
    ensures VoteError(Exec(b, events), offerer, u, later).Some?
  {
    CyclesNeverGoBackInRun(b, now, events);
    InvRun(b, now, events);
    ExecKeepsOwner(b, events);
    StaleEntryRefused(Exec(b, events), EndTime(now, events), u, stamp, offerer, later);
  }

  lemma PriceKeepsOwner(b: Bid, u: UserId, price: real, access: ChatAccess, rows: seq<UserId>, now: int)
    ensures NewPrice(b, u, price, access, rows, now).bid.ownerId == b.ownerId
  {
  }

  lemma VoteKeepsOwner(b: Bid, offerer: UserId, voter: UserId, accept: bool, now: int)
    ensures VoteOn(b, offerer, voter, accept, now).bid.ownerId == b.ownerId
  {
  }

  lemma StepKeepsOwner(b: Bid, e: Event)
    ensures Step(b, e).bid.ownerId == b.ownerId
  {
    match e.op {
      case OpNewPrice(u, price, access, rows) => PriceKeepsOwner(b, u, price, access, rows, e.now);
      case OpVote(offerer, voter, accept) => VoteKeepsOwner(b, offerer, voter, accept, e.now);
      case OpJoin(u, hidden, access) => assert Join(b, u, hidden, access, e.now).bid.ownerId == b.ownerId;
      case _ =>
    }
  }

  lemma {:induction false} ExecKeepsOwner(b: Bid, events: seq<Event>)
    ensures Exec(b, events).ownerId == b.ownerId
    decreases |events|
  {
    if events != [] {
      var c := Step(b, events[0]).bid;
      StepKeepsOwner(b, events[0]);
      ExecKeepsOwner(c, events[1..]);
    }
  }
}
