/**
 Any number of concurrent resolvers of expired offers, running beside every other request. A resolver's reads
 of the bid row and of the offer row, its look at the clock, its conditional claim and its write of the official
 rate are separate steps; all other requests are atomic.
 */
module ExpiryRace {
  import opened Options
  import opened Auction
  import opened AuctionInvariant

  // ---------------------------------------------------------------- the system

  type CallId = nat
  type PlacementId = nat

  datatype Result = NothingToClear | StillFresh | AppliedRate | TooHigh

  /** Where one call of the resolver stands, with what it has read so far. */
  datatype Call =
    | GotRate(offerer: UserId, seenRate: real)
    | GotOffer(offerer: UserId, seenRate: real, offerRate: real, stamp: int, read: PlacementId)
    | Checked(offerer: UserId, offerRate: real, stamp: int, read: PlacementId, apply: bool)
    | Claimed(offerRate: real, cleared: PlacementId)
    | Finished(result: Result)

  datatype Placement = Placement(user: UserId, stamp: int)

  datatype Claim = Claim(call: CallId, read: PlacementId, cleared: PlacementId)

  /**
   The bid and the clock, the calls, and for telling placements apart: who placed what when, which placement
   each user's stored offer is, which claims were made and which placements were applied to the official rate.
   */
  datatype System = System(
    bid: Bid,
    now: int,
    calls: map<CallId, Call>,
    placements: seq<Placement>,
    current: map<UserId, PlacementId>,
    claims: seq<Claim>,
    applied: seq<PlacementId>)

  datatype Action =
    | Tick(to: int)
    | Request(op: Op)
    | ReadRate(call: CallId, offerer: UserId)
    | ReadOffer(call: CallId)
    | LookAtClock(call: CallId)
    | ClaimOffer(call: CallId)
    | WriteRate(call: CallId)

  ghost predicate Allowed(s: System, a: Action) {
    match a
    case Tick(t) => s.now <= t
    case Request(op) => !op.OpResolve? && Enabled(s.bid, s.now, Event(op, s.now))
    case ReadRate(c, _) => c !in s.calls
    case ReadOffer(c) => c in s.calls && s.calls[c].GotRate?
    case LookAtClock(c) => c in s.calls && s.calls[c].GotOffer?
    case ClaimOffer(c) => c in s.calls && s.calls[c].Checked?
    case WriteRate(c) => c in s.calls && s.calls[c].Claimed?
  }

  function IdOf(s: System, u: UserId): PlacementId {
    if u in s.current then s.current[u] else 0
  }

  function AfterRequest(s: System, op: Op): System {
    var r := Step(s.bid, Event(op, s.now));
    if op.OpNewPrice? && r.reply == Done(OfferPlaced)
    then s.(bid := r.bid,
            placements := s.placements + [Placement(op.requester, s.now)],
            current := s.current[op.requester := |s.placements|])
    else s.(bid := r.bid)
  }

  function AfterReadOffer(s: System, c: CallId): System
    requires c in s.calls && s.calls[c].GotRate?
  {
    var u := s.calls[c].offerer;
    if HasOffer(s.bid, u)
    then s.(calls := s.calls[c := GotOffer(u, s.calls[c].seenRate, OfferOf(s.bid, u).rate,
                                           OfferOf(s.bid, u).createdRateAt, IdOf(s, u))])
    else s.(calls := s.calls[c := Finished(NothingToClear)])
  }

  function AfterLook(s: System, c: CallId): System
    requires c in s.calls && s.calls[c].GotOffer?
  {
    var k := s.calls[c];
    if k.stamp + FRESH > s.now then s.(calls := s.calls[c := Finished(StillFresh)])
    else s.(calls := s.calls[c := Checked(k.offerer, k.offerRate, k.stamp, k.read, k.offerRate <= k.seenRate)])
  }

  /** The row is cleared only if it still holds an offer with the stamp that was read. */
  function AfterClaim(s: System, c: CallId): System
    requires c in s.calls && s.calls[c].Checked?
  {
    var k := s.calls[c];
    if HasOffer(s.bid, k.offerer) && OfferOf(s.bid, k.offerer).createdRateAt == k.stamp
    then s.(bid := ClearOffer(s.bid, k.offerer),
            claims := s.claims + [Claim(c, k.read, IdOf(s, k.offerer))],
            calls := s.calls[c := if k.apply then Claimed(k.offerRate, IdOf(s, k.offerer)) else Finished(TooHigh)])
    else s.(calls := s.calls[c := Finished(NothingToClear)])
  }

  function AfterWrite(s: System, c: CallId): System
    requires c in s.calls && s.calls[c].Claimed?
  {
    s.(bid := WriteMainRate(s.bid, s.calls[c].offerRate, s.now),
       applied := s.applied + [s.calls[c].cleared],
       calls := s.calls[c := Finished(AppliedRate)])
  }

  ghost function Do(s: System, a: Action): System
    requires Allowed(s, a)
  {
    match a
    case Tick(t) => s.(now := t)
    case Request(op) => AfterRequest(s, op)
    case ReadRate(c, u) => s.(calls := s.calls[c := GotRate(u, s.bid.rate)])
    case ReadOffer(c) => AfterReadOffer(s, c)
    case LookAtClock(c) => AfterLook(s, c)
    case ClaimOffer(c) => AfterClaim(s, c)
    case WriteRate(c) => AfterWrite(s, c)
  }

  ghost predicate Possible(s: System, actions: seq<Action>)
    decreases |actions|
  {
    actions == [] || (Allowed(s, actions[0]) && Possible(Do(s, actions[0]), actions[1..]))
  }

  ghost function DoAll(s: System, actions: seq<Action>): System
    requires Possible(s, actions)
    decreases |actions|
  {
    if actions == [] then s else DoAll(Do(s, actions[0]), actions[1..])
  }

  /** A bid with no offer stored and no resolver called yet. */
  ghost predicate Initial(s: System) {
    && Inv(s.bid, s.now) && (forall u :: !HasOffer(s.bid, u))
    && s.calls == map[] && s.placements == [] && s.current == map[] && s.claims == [] && s.applied == []
  }

  // ---------------------------------------------------------------- the invariant

  predicate Names(s: System, id: PlacementId, u: UserId, stamp: int) {
    id < |s.placements| && s.placements[id] == Placement(u, stamp)
  }

  predicate IsCleared(s: System, id: PlacementId) {
    exists i | 0 <= i < |s.claims| :: s.claims[i].cleared == id
  }

  /** Every stored offer is a known placement that nobody has claimed. */
  predicate StoredUnclaimed(s: System) {
    forall u | u in s.bid.participants && HasOffer(s.bid, u) ::
      Names(s, IdOf(s, u), u, OfferOf(s.bid, u).createdRateAt) && !IsCleared(s, IdOf(s, u))
  }

  predicate CallsReadPlacements(s: System) {
    forall c | c in s.calls ::
      && (s.calls[c].GotOffer? ==> Names(s, s.calls[c].read, s.calls[c].offerer, s.calls[c].stamp))
      && (s.calls[c].Checked? ==>
            && Names(s, s.calls[c].read, s.calls[c].offerer, s.calls[c].stamp)
            && s.calls[c].stamp + FRESH <= s.now)
  }

  /** No placement is claimed twice; a claim clears a placement of the same user and second as the one read. */
  predicate ClaimsOnce(s: System) {
    && (forall i | 0 <= i < |s.claims| ::
          && s.claims[i].cleared < |s.placements| && s.claims[i].read < |s.placements|
          && s.placements[s.claims[i].read] == s.placements[s.claims[i].cleared]
          && s.placements[s.claims[i].cleared].stamp + FRESH <= s.now)
    && forall i, j | 0 <= i < j < |s.claims| :: s.claims[i].cleared != s.claims[j].cleared
  }

  /** What is applied was claimed, once; a call about to write holds a claim of its own, not yet applied. */
  predicate AppliedOnce(s: System) {
    && (forall i | 0 <= i < |s.applied| :: IsCleared(s, s.applied[i]))
    && (forall i, j | 0 <= i < j < |s.applied| :: s.applied[i] != s.applied[j])
    && (forall c | c in s.calls && s.calls[c].Claimed? ::
          && s.calls[c].cleared !in s.applied
          && exists i | 0 <= i < |s.claims| :: s.claims[i].cleared == s.calls[c].cleared && s.claims[i].call == c)
  }

  ghost predicate SysInv(s: System) {
    && Inv(s.bid, s.now)
    && StoredUnclaimed(s) && CallsReadPlacements(s) && ClaimsOnce(s) && AppliedOnce(s)
  }

  // ---------------------------------------------------------------- other requests

  /** A request either places one offer now, or leaves only placements that were stored before it. */
  lemma OffersAfterNewPrice(b: Bid, u: UserId, price: real, access: ChatAccess, rows: seq<UserId>, now: int)
    ensures var r := NewPrice(b, u, price, access, rows, now);
      forall v | HasOffer(r.bid, v) ::
        if v == u && r.reply == Done(OfferPlaced) then OfferOf(r.bid, v).createdRateAt == now
        else HasOffer(b, v) && OfferOf(b, v).createdRateAt == OfferOf(r.bid, v).createdRateAt
  {
  }

  lemma OffersAfterVote(b: Bid, offerer: UserId, voter: UserId, accept: bool, now: int)
    ensures var c := VoteOn(b, offerer, voter, accept, now).bid;
      forall v | HasOffer(c, v) :: HasOffer(b, v) && OfferOf(b, v).createdRateAt == OfferOf(c, v).createdRateAt
  {
    if VoteError(b, offerer, voter, now).None? && accept {
      OnlyOfferLeft(b, offerer, voter, now);
      var c := RecordAccept(b, offerer, voter, now);
      var d := WriteMainRate(c, OfferOf(b, offerer).rate, now);
      assert forall v :: HasOffer(d, v) == HasOffer(c, v);
      assert forall v :: !HasOffer(ClearOffer(d, offerer), v);
    }
  }

  lemma OffersAfter(b: Bid, e: Event)
    ensures var r := Step(b, e);
      forall v | HasOffer(r.bid, v) ::
        if e.op.OpNewPrice? && v == e.op.requester && r.reply == Done(OfferPlaced)
        then OfferOf(r.bid, v).createdRateAt == e.now
        else HasOffer(b, v) && OfferOf(b, v).createdRateAt == OfferOf(r.bid, v).createdRateAt
  {
    match e.op {
      case OpNewPrice(u, price, access, rows) =>
        OffersAfterNewPrice(b, u, price, access, rows, e.now);
        assert Step(b, e) == NewPrice(b, u, price, access, rows, e.now);
      case OpVote(offerer, voter, accept) =>
        OffersAfterVote(b, offerer, voter, accept, e.now);
        assert Step(b, e) == VoteOn(b, offerer, voter, accept, e.now);
      case _ =>
    }
  }

  lemma StoredAfterRequest(s: System, op: Op)
    requires StoredUnclaimed(s) && ClaimsOnce(s)
    ensures StoredUnclaimed(AfterRequest(s, op))
  {
    OffersAfter(s.bid, Event(op, s.now));
    var t := AfterRequest(s, op);
    assert t.claims == s.claims;
    forall v | v in t.bid.participants && HasOffer(t.bid, v)
      ensures Names(t, IdOf(t, v), v, OfferOf(t.bid, v).createdRateAt) && !IsCleared(t, IdOf(t, v))
    {
      if v in s.bid.participants && HasOffer(s.bid, v) {
        assert Names(s, IdOf(s, v), v, OfferOf(s.bid, v).createdRateAt) && !IsCleared(s, IdOf(s, v));
      }
    }
  }

  /** A step that only adds placements leaves what calls, claims and writes refer to. */
  lemma LedgerKept(s: System, t: System)
    requires CallsReadPlacements(s) && ClaimsOnce(s) && AppliedOnce(s)
    requires s.placements <= t.placements && t.calls == s.calls && t.claims == s.claims && t.applied == s.applied && t.now == s.now
    ensures CallsReadPlacements(t) && ClaimsOnce(t) && AppliedOnce(t)
  {
    assert forall id :: IsCleared(s, id) ==> IsCleared(t, id);
    assert forall id | 0 <= id < |s.placements| :: t.placements[id] == s.placements[id];
  }

  lemma InvRequest(s: System, op: Op)
    requires SysInv(s) && Allowed(s, Request(op))
    ensures SysInv(AfterRequest(s, op))
  {
    var t := AfterRequest(s, op);
    InvStep(s.bid, s.now, Event(op, s.now));
    StoredAfterRequest(s, op);
    LedgerKept(s, t);
  }

  // ---------------------------------------------------------------- resolver steps

  lemma InvTick(s: System, later: int)
    requires SysInv(s) && s.now <= later
    ensures SysInv(s.(now := later))
  {
    InvLater(s.bid, s.now, later);
    var t := s.(now := later);
    assert forall u :: IdOf(t, u) == IdOf(s, u);
    assert forall id :: IsCleared(s, id) == IsCleared(t, id);
  }

  /** A step that only moves one call to a place consistent with what is stored. */
  lemma InvMove(s: System, c: CallId, k: Call)
    requires SysInv(s)
    requires !k.Claimed?
    requires k.GotOffer? ==> Names(s, k.read, k.offerer, k.stamp)
    requires k.Checked? ==> Names(s, k.read, k.offerer, k.stamp) && k.stamp + FRESH <= s.now
    ensures SysInv(s.(calls := s.calls[c := k]))
  {
    var t := s.(calls := s.calls[c := k]);
    assert forall u :: IdOf(t, u) == IdOf(s, u);
    assert forall id :: IsCleared(s, id) == IsCleared(t, id);
  }

  lemma InvReadOffer(s: System, c: CallId)
    requires SysInv(s) && c in s.calls && s.calls[c].GotRate?
    ensures SysInv(AfterReadOffer(s, c))
  {
    var u := s.calls[c].offerer;
    if HasOffer(s.bid, u) {
      InvMove(s, c, GotOffer(u, s.calls[c].seenRate, OfferOf(s.bid, u).rate, OfferOf(s.bid, u).createdRateAt, IdOf(s, u)));
    } else {
      InvMove(s, c, Finished(NothingToClear));
    }
  }

  lemma InvLook(s: System, c: CallId)
    requires SysInv(s) && c in s.calls && s.calls[c].GotOffer?
    ensures SysInv(AfterLook(s, c))
  {
    var k := s.calls[c];
    if k.stamp + FRESH > s.now {
      InvMove(s, c, Finished(StillFresh));
    } else {
      InvMove(s, c, Checked(k.offerer, k.offerRate, k.stamp, k.read, k.offerRate <= k.seenRate));
    }
  }

  lemma StoredAfterClaim(s: System, c: CallId)
    requires SysInv(s) && c in s.calls && s.calls[c].Checked?
    ensures StoredUnclaimed(AfterClaim(s, c))
  {
    var t := AfterClaim(s, c);
    var u := s.calls[c].offerer;
    forall v | v in t.bid.participants && HasOffer(t.bid, v)
      ensures Names(t, IdOf(t, v), v, OfferOf(t.bid, v).createdRateAt) && !IsCleared(t, IdOf(t, v))
    {
      assert HasOffer(s.bid, v) && OfferOf(s.bid, v) == OfferOf(t.bid, v);
      assert Names(s, IdOf(s, v), v, OfferOf(s.bid, v).createdRateAt) && !IsCleared(s, IdOf(s, v));
      if t.claims != s.claims {
        assert Names(s, IdOf(s, u), u, OfferOf(s.bid, u).createdRateAt);
        assert v != u;
        assert IdOf(t, v) == IdOf(s, v) != IdOf(s, u);
        assert forall i | 0 <= i < |s.claims| :: t.claims[i] == s.claims[i];
      }
    }
  }

  lemma InvClaim(s: System, c: CallId)
    requires SysInv(s) && c in s.calls && s.calls[c].Checked?
    ensures SysInv(AfterClaim(s, c))
  {
    var k := s.calls[c];
    var t := AfterClaim(s, c);
    if HasOffer(s.bid, k.offerer) && OfferOf(s.bid, k.offerer).createdRateAt == k.stamp {
      InvClearOffer(s.bid, k.offerer, s.now);
      StoredAfterClaim(s, c);
      ClaimRecorded(s, c);
    } else {
      InvMove(s, c, Finished(NothingToClear));
    }
  }

  lemma ClaimRecorded(s: System, c: CallId)
    requires SysInv(s) && c in s.calls && s.calls[c].Checked?
    requires HasOffer(s.bid, s.calls[c].offerer) && OfferOf(s.bid, s.calls[c].offerer).createdRateAt == s.calls[c].stamp
    ensures var t := AfterClaim(s, c); ClaimsOnce(t) && AppliedOnce(t) && CallsReadPlacements(t)
  {
    var k := s.calls[c];
    var t := AfterClaim(s, c);
    var n := |s.claims|;
    var id := IdOf(s, k.offerer);
    assert Names(s, id, k.offerer, k.stamp) && !IsCleared(s, id);
    assert forall i | 0 <= i < n :: t.claims[i] == s.claims[i];
    assert t.claims[n] == Claim(c, k.read, id);
    assert forall x :: IsCleared(s, x) ==> IsCleared(t, x);
    forall d | d in t.calls && t.calls[d].Claimed?
      ensures t.calls[d].cleared !in t.applied
      ensures exists i | 0 <= i < |t.claims| :: t.claims[i].cleared == t.calls[d].cleared && t.claims[i].call == d
    {
      if d == c {
        assert t.claims[n].cleared == t.calls[d].cleared && t.claims[n].call == d;
        assert forall i | 0 <= i < |s.applied| :: IsCleared(s, s.applied[i]) && s.applied[i] != id;
      } else {
        var i :| 0 <= i < n && s.claims[i].cleared == s.calls[d].cleared && s.claims[i].call == d;
        assert t.claims[i].cleared == t.calls[d].cleared && t.claims[i].call == d;
      }
    }
  }

  /** Another call about to write holds another claim, so another placement. */
  lemma OwnClaims(s: System, c: CallId, d: CallId)
    requires ClaimsOnce(s) && AppliedOnce(s) && c != d
    requires c in s.calls && s.calls[c].Claimed? && d in s.calls && s.calls[d].Claimed?
    ensures s.calls[c].cleared != s.calls[d].cleared
  {
    var i :| 0 <= i < |s.claims| && s.claims[i].cleared == s.calls[c].cleared && s.claims[i].call == c;
    var j :| 0 <= j < |s.claims| && s.claims[j].cleared == s.calls[d].cleared && s.claims[j].call == d;
    assert i != j;
  }

  lemma WriteRecorded(s: System, c: CallId)
    requires SysInv(s) && c in s.calls && s.calls[c].Claimed?
    ensures AppliedOnce(AfterWrite(s, c))
  {
    var t := AfterWrite(s, c);
    var id := s.calls[c].cleared;
    assert IsCleared(s, id) by {
      var i :| 0 <= i < |s.claims| && s.claims[i].cleared == id && s.claims[i].call == c;
    }
    assert forall x :: IsCleared(s, x) ==> IsCleared(t, x);
    forall d | d in t.calls && t.calls[d].Claimed? ensures t.calls[d].cleared !in t.applied {
      OwnClaims(s, c, d);
    }
  }

  lemma InvWrite(s: System, c: CallId)
    requires SysInv(s) && c in s.calls && s.calls[c].Claimed?
    ensures SysInv(AfterWrite(s, c))
  {
    var t := AfterWrite(s, c);
    InvBidRow(s.bid, t.bid, s.now);
    WriteRecorded(s, c);
    assert forall u :: IdOf(t, u) == IdOf(s, u);
    assert forall u :: HasOffer(t.bid, u) == HasOffer(s.bid, u);
    assert forall x :: IsCleared(s, x) == IsCleared(t, x);
  }

  // ---------------------------------------------------------------- whole runs

  lemma SysInvDo(s: System, a: Action)
    requires SysInv(s) && Allowed(s, a)
    ensures SysInv(Do(s, a))
  {
    match a
    case Tick(t) => InvTick(s, t);
    case Request(op) => InvRequest(s, op);
    case ReadRate(c, u) => InvMove(s, c, GotRate(u, s.bid.rate));
    case ReadOffer(c) => InvReadOffer(s, c);
    case LookAtClock(c) => InvLook(s, c);
    case ClaimOffer(c) => InvClaim(s, c);
    case WriteRate(c) => InvWrite(s, c);
  }

  lemma {:induction false} SysInvDoAll(s: System, actions: seq<Action>)
    requires SysInv(s) && Possible(s, actions)
    ensures SysInv(DoAll(s, actions))
    decreases |actions|
  {
    if actions != [] {
      SysInvDo(s, actions[0]);
      SysInvDoAll(Do(s, actions[0]), actions[1..]);
    }
  }

  /**
   Under every interleaving of any number of resolvers with all other requests: the bid keeps the invariant of
   the atomic auction, each placement is claimed at most once and applied at most once, only claimed ones are
   applied, and nothing fresh is ever cleared by a claim.
   */
  lemma ClaimedAndAppliedOnce(s: System, actions: seq<Action>)
    requires Initial(s) && Possible(s, actions)
    ensures var t := DoAll(s, actions);
      && Inv(t.bid, t.now)
      && (forall i, j | 0 <= i < j < |t.claims| :: t.claims[i].cleared != t.claims[j].cleared)
      && (forall i, j | 0 <= i < j < |t.applied| :: t.applied[i] != t.applied[j])
      && (forall i | 0 <= i < |t.applied| :: IsCleared(t, t.applied[i]))
      && (forall i | 0 <= i < |t.claims| ::
            t.claims[i].cleared < |t.placements| && t.placements[t.claims[i].cleared].stamp + FRESH <= t.now)
  {
    SysInvDoAll(s, actions);
  }

  /** No user places two offers within one second. */
  predicate SecondsDistinct(s: System) {
    forall i, j | 0 <= i < j < |s.placements| :: s.placements[i] != s.placements[j]
  }

  /** Then every claim cleared the very placement its caller had read, never a newer offer of the same user. */
  lemma ClaimsClearWhatTheyRead(s: System, actions: seq<Action>)
    requires Initial(s) && Possible(s, actions) && SecondsDistinct(DoAll(s, actions))
    ensures var t := DoAll(s, actions); forall i | 0 <= i < |t.claims| :: t.claims[i].read == t.claims[i].cleared
  {
    SysInvDoAll(s, actions);
    var t := DoAll(s, actions);
    forall i | 0 <= i < |t.claims| ensures t.claims[i].read == t.claims[i].cleared {
      var x, y := t.claims[i].read, t.claims[i].cleared;
      assert t.placements[x] == t.placements[y];
    }
  }

  // ---------------------------------------------------------------- resolvers alone

  predicate OnlyResolvers(actions: seq<Action>) {
    forall i | 0 <= i < |actions| :: !actions[i].Request?
  }

  /** Nothing read or about to be written exceeds `cap`. */
  predicate Capped(s: System, cap: real) {
    && s.bid.rate <= cap
    && forall c | c in s.calls ::
         match s.calls[c]
         case GotRate(_, seen) => seen <= cap
         case GotOffer(_, seen, _, _, _) => seen <= cap
         case Checked(_, rate, _, _, apply) => apply ==> rate <= cap
         case Claimed(rate, _) => rate <= cap
         case Finished(_) => true
  }

  lemma {:induction false} ResolversNeverExceed(s: System, actions: seq<Action>, cap: real)
    requires Possible(s, actions) && OnlyResolvers(actions) && Capped(s, cap)
    ensures Capped(DoAll(s, actions), cap)
    decreases |actions|
  {
    if actions != [] {
      var t := Do(s, actions[0]);
      assert Capped(t, cap);
      ResolversNeverExceed(t, actions[1..], cap);
    }
  }

  /** While only resolvers run, however many and however interleaved, the rate never exceeds its value at the start. */
  lemma ResolversAloneNeverRaise(s: System, actions: seq<Action>)
    requires s.calls == map[] && Possible(s, actions) && OnlyResolvers(actions)
    ensures DoAll(s, actions).bid.rate <= s.bid.rate
  {
    ResolversNeverExceed(s, actions, s.bid.rate);
  }

  /** One resolver with nothing in between does exactly what the atomic step does. */
  lemma SoloIsAtomic(s: System, c: CallId, u: UserId)
    requires c !in s.calls
    ensures var s1 := Do(s, ReadRate(c, u)); var s2 := Do(s1, ReadOffer(c)); var r := Resolve(s.bid, u, s.now);
      if s2.calls[c].Finished? then r == Outcome(s2.bid, Done(AlreadyCleared))
      else
        var s3 := Do(s2, LookAtClock(c));
        if s3.calls[c].Finished? then r == Outcome(s3.bid, Failed(OfferStillFresh))
        else
          var s4 := Do(s3, ClaimOffer(c));
          if s4.calls[c] == Finished(TooHigh) then r == Outcome(s4.bid, Done(ExpiredTooHigh))
          else s4.calls[c].Claimed? && r == Outcome(Do(s4, WriteRate(c)).bid, Done(ExpiredAccepted))
  {
  }
}
