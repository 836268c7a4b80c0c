/** Timer cycles, archiving and the purge clock over whole runs. */
module AuctionTimers {
  import opened Options
  import opened Auction
  import opened AuctionInvariant
  import opened AuctionRuns

  // ---------------------------------------------------------------- extending

  /** The owner extends exactly a live, unexpired card that has been extended fewer than three times. */
  lemma ExtendBidExactlyWhen(b: Bid, requester: UserId, now: int)
    requires Inv(b, now)
    ensures ExtendBid(b, requester, now).reply == Done(Extended) <==>
      && requester == b.ownerId
      && !b.isArchive
      && b.updatedAt - b.createdAt != 3 * TIMER
      && b.updatedAt + TIMER > now
  {
  }

  /** Every cycle is over an hour after it started, for the card and for every +1 user. */
  lemma CyclesEnd(b: Bid, now: int)
    requires Inv(b, now)
    ensures !b.isArchive ==> b.createdAt <= b.updatedAt && b.updatedAt + TIMER <= b.createdAt + 3600
    ensures forall u | u in b.participants ::
      var p := b.participants[u]; p.createdAt <= p.updatedAt && p.updatedAt + TIMER <= p.createdAt + 3600
  {
    assert forall u | u in b.participants :: PlusOneClock(b.participants[u], now);
  }

  /** The step ends the card's cycle: it writes the official rate or archives the bid. */
  predicate EndsCycle(b: Bid, e: Event) {
    var r := Step(b, e).reply;
    || r == Done(RateChanged) || r == Done(AutoAccepted) || r == Done(OfferAccepted)
    || r == Done(ExpiredAccepted) || r == Done(Archived)
  }

  predicate Extends(b: Bid, e: Event) {
    e.op.OpExtendBid? && Step(b, e).reply == Done(Extended)
  }

  function ExtendCount(b: Bid, events: seq<Event>): nat
    decreases |events|
  {
    if events == [] then 0
    else (if Extends(b, events[0]) then 1 else 0) + ExtendCount(Step(b, events[0]).bid, events[1..])
  }

  predicate WithinCycle(b: Bid, events: seq<Event>)
    decreases |events|
  {
    events == [] || (!EndsCycle(b, events[0]) && WithinCycle(Step(b, events[0]).bid, events[1..]))
  }

  lemma VoteLeavesClock(b: Bid, offerer: UserId, voter: UserId, accept: bool, now: int)
    requires VoteOn(b, offerer, voter, accept, now).reply != Done(OfferAccepted)
    ensures var c := VoteOn(b, offerer, voter, accept, now).bid;
      c.createdAt == b.createdAt && c.updatedAt == b.updatedAt && c.isArchive == b.isArchive
  {
  }

  lemma ClockStep(b: Bid, e: Event)
    requires !EndsCycle(b, e)
    ensures var c := Step(b, e).bid;
      && c.createdAt == b.createdAt && c.isArchive == b.isArchive
      && c.updatedAt == b.updatedAt + (if Extends(b, e) then TIMER else 0)
  {
    match e.op {
      case OpVote(offerer, voter, accept) =>
        VoteLeavesClock(b, offerer, voter, accept, e.now);
        assert Step(b, e) == VoteOn(b, offerer, voter, accept, e.now);
      case OpNewPrice(u, price, access, rows) =>
        assert Step(b, e) == NewPrice(b, u, price, access, rows, e.now);
      case _ =>
    }
  }

  lemma {:induction false} ClockRun(b: Bid, events: seq<Event>)
    requires WithinCycle(b, events)
    ensures var c := Exec(b, events);
      && c.createdAt == b.createdAt && c.isArchive == b.isArchive
      && c.updatedAt == b.updatedAt + TIMER * ExtendCount(b, events)
    decreases |events|
  {
    if events != [] {
      ClockStep(b, events[0]);
      ClockRun(Step(b, events[0]).bid, events[1..]);
    }
  }

  /** However a run goes on, the card is extended at most three times within one cycle; none once archived. */
  lemma ThreeExtendsPerCycle(b: Bid, now: int, events: seq<Event>)
    requires Inv(b, now) && IsRun(b, now, events) && WithinCycle(b, events)
    ensures TIMER * ExtendCount(b, events) <= if b.isArchive then 0 else MAX_EXTEND - (b.updatedAt - b.createdAt)
    ensures ExtendCount(b, events) <= 3
  {
    if b.isArchive {
      ArchivedNotExtended(b, now, events);
    } else {
      ClockRun(b, events);
      ClockInCycle(b, now, events);
      var c := Exec(b, events);
      ExtendsLeft(b.createdAt, b.updatedAt, c.updatedAt, ExtendCount(b, events));
    }
  }

  lemma ExtendsLeft(createdAt: int, updatedAt: int, later: int, count: nat)
    requires InCycle(createdAt, updatedAt) && InCycle(createdAt, later) && later == updatedAt + TIMER * count
    ensures TIMER * count <= MAX_EXTEND - (updatedAt - createdAt) && count <= 3
  {
  }

  lemma ClockInCycle(b: Bid, now: int, events: seq<Event>)
    requires Inv(b, now) && IsRun(b, now, events) && !Exec(b, events).isArchive
    ensures var c := Exec(b, events); InCycle(c.createdAt, c.updatedAt)
  {
    InvRun(b, now, events);
  }

  lemma {:induction false} ArchivedNotExtended(b: Bid, now: int, events: seq<Event>)
    requires Inv(b, now) && b.isArchive && IsRun(b, now, events) && WithinCycle(b, events)
    ensures ExtendCount(b, events) == 0
    decreases |events|
  {
    if events != [] {
      ClockStep(b, events[0]);
      InvStep(b, now, events[0]);
      ArchivedNotExtended(Step(b, events[0]).bid, events[0].now, events[1..]);
    }
  }

  // ---------------------------------------------------------------- the same for a +1 cycle

  function TargetOf(op: Op): UserId
    requires op.OpExtendPlusOne?
  {
    if op.target.Some? then op.target.value else op.requester
  }

  predicate ExtendsPlusOne(b: Bid, e: Event, u: UserId) {
    e.op.OpExtendPlusOne? && TargetOf(e.op) == u && Step(b, e).reply == Done(Extended)
  }

  /** The step restarts the user's +1 cycle: a re-join, or an accept of theirs that is recorded. */
  predicate EndsPlusOneCycle(b: Bid, e: Event, u: UserId) {
    || (e.op.OpJoin? && e.op.user == u && Step(b, e).reply == Done(Rejoined))
    || (e.op.OpVote? && e.op.voter == u
        && (Step(b, e).reply == Done(VotePending) || Step(b, e).reply == Done(OfferAccepted)))
  }

  function PlusOneExtendCount(b: Bid, events: seq<Event>, u: UserId): nat
    decreases |events|
  {
    if events == [] then 0
    else (if ExtendsPlusOne(b, events[0], u) then 1 else 0) + PlusOneExtendCount(Step(b, events[0]).bid, events[1..], u)
  }

  predicate WithinPlusOneCycle(b: Bid, events: seq<Event>, u: UserId)
    decreases |events|
  {
    events == [] || (!EndsPlusOneCycle(b, events[0], u) && WithinPlusOneCycle(Step(b, events[0]).bid, events[1..], u))
  }

  /** The +1 row of `u` is still one, in the same cycle, with its timer moved by `extended`. */
  predicate SameCycle(b: Bid, c: Bid, u: UserId, extended: int) {
    && IsPlusOne(b, u) && IsPlusOne(c, u)
    && c.participants[u].createdAt == b.participants[u].createdAt
    && c.participants[u].updatedAt == b.participants[u].updatedAt + extended
  }

  lemma AcceptLeavesOthers(b: Bid, offerer: UserId, voter: UserId, now: int, u: UserId)
    requires HasOffer(b, offerer) && IsPlusOne(b, u) && (u != voter || voter == b.ownerId)
    ensures SameCycle(b, RecordAccept(b, offerer, voter, now), u, 0)
  {
  }

  lemma ClearLeavesCycle(b: Bid, offerer: UserId, u: UserId)
    requires IsPlusOne(b, u)
    ensures SameCycle(b, ClearOffer(b, offerer), u, 0)
  {
  }

  lemma VoteLeavesCycle(b: Bid, offerer: UserId, voter: UserId, accept: bool, now: int, u: UserId)
    requires OwnerRow(b) && IsPlusOne(b, u)
    requires u == voter ==> VoteOn(b, offerer, voter, accept, now).reply !in {Done(VotePending), Done(OfferAccepted)}
    ensures SameCycle(b, VoteOn(b, offerer, voter, accept, now).bid, u, 0)
  {
    if VoteError(b, offerer, voter, now).None? {
      if accept {
        AcceptLeavesOthers(b, offerer, voter, now, u);
        var c := WriteMainRate(RecordAccept(b, offerer, voter, now), OfferOf(b, offerer).rate, now);
        ClearLeavesCycle(c, offerer, u);
      } else {
        ClearLeavesCycle(b, offerer, u);
      }
    }
  }

  lemma PriceLeavesCycle(b: Bid, requester: UserId, price: real, access: ChatAccess, rows: seq<UserId>, now: int, u: UserId)
    requires IsPlusOne(b, u)
    ensures SameCycle(b, NewPrice(b, requester, price, access, rows, now).bid, u, 0)
  {
  }

  lemma PlusOneClockStep(b: Bid, e: Event, u: UserId)
    requires OwnerRow(b) && IsPlusOne(b, u) && !EndsPlusOneCycle(b, e, u)
    ensures SameCycle(b, Step(b, e).bid, u, if ExtendsPlusOne(b, e, u) then TIMER else 0)
  {
    match e.op {
      case OpVote(offerer, voter, accept) =>
        assert Step(b, e) == VoteOn(b, offerer, voter, accept, e.now);
        VoteLeavesCycle(b, offerer, voter, accept, e.now, u);
      case OpNewPrice(requester, price, access, rows) =>
        assert Step(b, e) == NewPrice(b, requester, price, access, rows, e.now);
        PriceLeavesCycle(b, requester, price, access, rows, e.now, u);
      case OpResolve(offerer) =>
        ClearLeavesCycle(b, offerer, u);
      case _ =>
    }
  }

  lemma {:induction false} PlusOneClockRun(b: Bid, now: int, events: seq<Event>, u: UserId)
    requires Inv(b, now) && IsRun(b, now, events) && IsPlusOne(b, u) && WithinPlusOneCycle(b, events, u)
    ensures SameCycle(b, Exec(b, events), u, TIMER * PlusOneExtendCount(b, events, u))
    decreases |events|
  {
    if events != [] {
      var c := Step(b, events[0]).bid;
      PlusOneClockStep(b, events[0], u);
      InvStep(b, now, events[0]);
      PlusOneClockRun(c, events[0].now, events[1..], u);
    }
  }

  /** However a run goes on, a +1 timer is extended at most three times within one cycle. */
  lemma ThreeExtendsPerPlusOneCycle(b: Bid, now: int, events: seq<Event>, u: UserId)
    requires Inv(b, now) && IsRun(b, now, events) && IsPlusOne(b, u) && WithinPlusOneCycle(b, events, u)
    ensures var p := b.participants[u];
      TIMER * PlusOneExtendCount(b, events, u) <= MAX_EXTEND - (p.updatedAt - p.createdAt)
    ensures PlusOneExtendCount(b, events, u) <= 3
  {
    var count := PlusOneExtendCount(b, events, u);
    PlusOneClockRun(b, now, events, u);
    PlusOneInCycle(b, now, u);
    InvRun(b, now, events);
    var c := Exec(b, events);
    PlusOneInCycle(c, EndTime(now, events), u);
    ExtendsLeft(b.participants[u].createdAt, b.participants[u].updatedAt, c.participants[u].updatedAt, count);
  }

  lemma PlusOneInCycle(b: Bid, now: int, u: UserId)
    requires Inv(b, now) && IsPlusOne(b, u)
    ensures InCycle(b.participants[u].createdAt, b.participants[u].updatedAt)
  {
    assert PlusOneClock(b.participants[u], now);
  }

  // ---------------------------------------------------------------- archiving and purging

  lemma VoteLeavesArchive(b: Bid, offerer: UserId, voter: UserId, accept: bool, now: int)
    requires VoteOn(b, offerer, voter, accept, now).bid.isArchive
    ensures b.isArchive && VoteOn(b, offerer, voter, accept, now).bid.updatedAt == b.updatedAt
  {
  }

  /** A bid is archived after a step only if the step archived it or it was archived and its clock stood still. */
  lemma ArchivedStep(b: Bid, now: int, e: Event)
    requires Inv(b, now) && now <= e.now && Step(b, e).bid.isArchive
    ensures Step(b, e).reply != Done(Archived) ==> b.isArchive && Step(b, e).bid.updatedAt == b.updatedAt
    ensures Step(b, e).reply == Done(Archived) ==> Step(b, e).bid.updatedAt == e.now
  {
    match e.op {
      case OpVote(offerer, voter, accept) =>
        VoteLeavesArchive(b, offerer, voter, accept, e.now);
        assert Step(b, e) == VoteOn(b, offerer, voter, accept, e.now);
      case OpNewPrice(u, price, access, rows) =>
        assert Step(b, e) == NewPrice(b, u, price, access, rows, e.now);
      case _ =>
    }
  }

  /** Event `k` archived the bid, which has stayed archived since. */
  ghost predicate ArchivedAt(b: Bid, events: seq<Event>, k: nat) {
    && k < |events|
    && Step(Exec(b, events[..k]), events[k]).reply == Done(Archived)
    && forall j | k < j <= |events| ::
         Exec(b, events[..j]).isArchive && Exec(b, events[..j]).updatedAt == events[k].now
  }

  lemma {:induction false} ArchivedBySomeEvent(b: Bid, now: int, events: seq<Event>)
    requires Inv(b, now) && !b.isArchive && IsRun(b, now, events) && Exec(b, events).isArchive
    ensures exists k: nat :: ArchivedAt(b, events, k)
    decreases |events|
  {
    assert events != [];
    var n := |events| - 1;
    RunSnoc(b, now, events);
    InvRun(b, now, events[..n]);
    ArchivedStep(Exec(b, events[..n]), EndTime(now, events[..n]), events[n]);
    assert events[..n + 1] == events;
    if Step(Exec(b, events[..n]), events[n]).reply == Done(Archived) {
      assert ArchivedAt(b, events, n);
    } else {
      ArchivedBySomeEvent(b, now, events[..n]);
      var k: nat :| ArchivedAt(b, events[..n], k);
      StillArchived(b, events, k);
    }
  }

  lemma StillArchived(b: Bid, events: seq<Event>, k: nat)
    requires events != [] && ArchivedAt(b, events[..|events| - 1], k)
    requires var early := events[..|events| - 1];
      Exec(b, events).isArchive && Exec(b, events).updatedAt == Exec(b, early).updatedAt
    ensures ArchivedAt(b, events, k)
  {
    var n := |events| - 1;
    var early := events[..n];
    assert early[..k] == events[..k];
    assert early[..n] == early && events[..n + 1] == events;
    forall j | k < j <= |events|
      ensures Exec(b, events[..j]).isArchive && Exec(b, events[..j]).updatedAt == events[k].now
    {
      if j <= n {
        assert early[..j] == events[..j];
      }
    }
  }

  /**
   The purge takes a bid exactly when the run archived it, it has stayed archived since, and that was more
   than 15 days ago.
   */
  lemma PurgedExactlyWhen(owner: UserId, rate: real, isDoNotBid: bool, start: int, events: seq<Event>, later: int)
    requires IsRun(Created(owner, rate, isDoNotBid, start), start, events)
    ensures var b := Created(owner, rate, isDoNotBid, start);
      PurgeDue(Exec(b, events), later) <==>
      exists k: nat :: ArchivedAt(b, events, k) && events[k].now + 15 * 24 * 3600 < later
  {
    var b := Created(owner, rate, isDoNotBid, start);
    InvCreated(owner, rate, isDoNotBid, start);
    assert events[..|events|] == events;
    if PurgeDue(Exec(b, events), later) {
      ArchivedBySomeEvent(b, start, events);
    }
  }
}
