/** Exactly when every completed run of concurrent resolvers ends at the lowest rate. */
module ExpiryMinimum {
  import opened Options
  import opened Auction
  import opened ExpiryRace
  import opened ExpiryStories

  /** The stored offer has expired by `until` and is not above the official rate. */
  predicate Applicable(s: System, u: UserId, until: int) {
    HasOffer(s.bid, u) && !IsFresh(OfferOf(s.bid, u), until) && OfferOf(s.bid, u).rate <= s.bid.rate
  }

  /** All offers that resolvers may apply by then ask for the same rate. */
  ghost predicate OneRate(s: System, until: int) {
    forall u, v :: Applicable(s, u, until) && Applicable(s, v, until) ==> OfferOf(s.bid, u).rate == OfferOf(s.bid, v).rate
  }

  /** Only resolvers, and no clock past `until`. */
  predicate ResolversUntil(actions: seq<Action>, until: int) {
    forall i | 0 <= i < |actions| :: !actions[i].Request? && (actions[i].Tick? ==> actions[i].to <= until)
  }

  predicate AllFinished(s: System) {
    forall c | c in s.calls :: s.calls[c].Finished?
  }

  ghost predicate Completed(s: System, actions: seq<Action>, until: int) {
    Possible(s, actions) && ResolversUntil(actions, until) && AllFinished(DoAll(s, actions))
  }

  predicate Gone(s: System, t: System, u: UserId) {
    HasOffer(s.bid, u) && !HasOffer(t.bid, u)
  }

  /** The rate is the lowest of the one before and those of the offers that were resolved. */
  ghost predicate AtLowest(s: System, t: System) {
    && t.bid.rate <= s.bid.rate
    && (forall u | Gone(s, t, u) :: t.bid.rate <= OfferOf(s.bid, u).rate)
    && (t.bid.rate == s.bid.rate || exists u :: Gone(s, t, u) && t.bid.rate == OfferOf(s.bid, u).rate)
  }

  // ---------------------------------------------------------------- one rate is enough

  ghost predicate RateGone(s: System, t: System, r: real) {
    exists u :: Gone(s, t, u) && OfferOf(s.bid, u).rate == r
  }

  predicate SomeClaimed(t: System) {
    exists c | c in t.calls :: t.calls[c].Claimed?
  }

  predicate SeenOk(s: System, r: real, seen: real) {
    seen == s.bid.rate || seen == r
  }

  predicate ReadOk(s: System, u: UserId, rate: real, stamp: int) {
    HasOffer(s.bid, u) && OfferOf(s.bid, u).rate == rate && OfferOf(s.bid, u).createdRateAt == stamp
  }

  ghost predicate CallOk(s: System, t: System, until: int, r: real, call: Call) {
    match call
    case GotRate(_, seen) => SeenOk(s, r, seen)
    case GotOffer(u, seen, rate, stamp, _) => SeenOk(s, r, seen) && ReadOk(s, u, rate, stamp)
    case Checked(u, rate, stamp, _, apply) =>
      ReadOk(s, u, rate, stamp) && !IsFresh(OfferOf(s.bid, u), until) && (apply <==> rate <= s.bid.rate)
    case Claimed(rate, _) => rate == r && RateGone(s, t, r)
    case Finished(_) => true
  }

  /** Offers only disappear, and only expired ones. */
  ghost predicate OffersOk(s: System, t: System, until: int) {
    && (forall u | HasOffer(t.bid, u) :: HasOffer(s.bid, u) && OfferOf(t.bid, u) == OfferOf(s.bid, u))
    && (forall u | Gone(s, t, u) :: !IsFresh(OfferOf(s.bid, u), until))
  }

  /** Between its claim and its write a resolver holds the rate back; otherwise it has been written. */
  ghost predicate RateOk(s: System, t: System, until: int, r: real) {
    && (t.bid.rate == s.bid.rate || (t.bid.rate == r && RateGone(s, t, r)))
    && (forall u | Gone(s, t, u) && Applicable(s, u, until) :: t.bid.rate == r || SomeClaimed(t))
  }

  ghost predicate Kept(s: System, t: System, until: int, r: real) {
    && t.now <= until
    && OffersOk(s, t, until)
    && RateOk(s, t, until, r)
    && forall c | c in t.calls :: CallOk(s, t, until, r, t.calls[c])
  }

  /** `r` is the one applicable rate, if there is one. */
  ghost predicate IsTheRate(s: System, until: int, r: real) {
    r <= s.bid.rate && forall u | Applicable(s, u, until) :: OfferOf(s.bid, u).rate == r
  }

  /** A call moves without touching the bid. */
  lemma MoveKept(s: System, t: System, until: int, r: real, c: CallId, call: Call)
    requires Kept(s, t, until, r) && (c in t.calls ==> !t.calls[c].Claimed?)
    requires CallOk(s, t, until, r, call)
    ensures Kept(s, t.(calls := t.calls[c := call]), until, r)
  {
    var m := t.(calls := t.calls[c := call]);
    assert forall u :: Gone(s, m, u) == Gone(s, t, u);
    assert RateGone(s, m, r) == RateGone(s, t, r);
    if SomeClaimed(t) {
      var d :| d in t.calls && t.calls[d].Claimed?;
      assert d in m.calls && m.calls[d].Claimed?;
    }
    forall d | d in m.calls ensures CallOk(s, m, until, r, m.calls[d]) {
      assert d != c ==> CallOk(s, t, until, r, t.calls[d]);
    }
  }

  lemma TickKept(s: System, t: System, until: int, r: real, to: int)
    requires Kept(s, t, until, r) && to <= until
    ensures Kept(s, t.(now := to), until, r)
  {
    var m := t.(now := to);
    assert forall u :: Gone(s, m, u) == Gone(s, t, u);
    assert RateGone(s, m, r) == RateGone(s, t, r);
    forall d | d in m.calls ensures CallOk(s, m, until, r, m.calls[d]) {
      assert CallOk(s, t, until, r, t.calls[d]);
    }
  }

  lemma ClaimKept(s: System, t: System, until: int, r: real, c: CallId)
    requires Kept(s, t, until, r) && IsTheRate(s, until, r) && c in t.calls && t.calls[c].Checked?
    ensures Kept(s, AfterClaim(t, c), until, r)
  {
    var k := t.calls[c];
    var u := k.offerer;
    assert CallOk(s, t, until, r, k);
    if HasOffer(t.bid, u) && OfferOf(t.bid, u).createdRateAt == k.stamp {
      var m := AfterClaim(t, c);
      assert forall v :: HasOffer(m.bid, v) <==> v != u && HasOffer(t.bid, v);
      assert forall v | HasOffer(m.bid, v) :: OfferOf(m.bid, v) == OfferOf(t.bid, v);
      assert forall v :: Gone(s, m, v) <==> v == u || Gone(s, t, v);
      assert Gone(s, m, u);
      if RateGone(s, t, r) {
        var v :| Gone(s, t, v) && OfferOf(s.bid, v).rate == r;
        assert Gone(s, m, v);
      }
      if SomeClaimed(t) {
        var d :| d in t.calls && t.calls[d].Claimed?;
        assert d in m.calls && m.calls[d].Claimed?;
      }
      if k.apply {
        assert Applicable(s, u, until);
        assert m.calls[c].Claimed? && SomeClaimed(m) && RateGone(s, m, r);
      }
      forall d | d in m.calls ensures CallOk(s, m, until, r, m.calls[d]) {
        assert d != c ==> CallOk(s, t, until, r, t.calls[d]);
      }
    } else {
      MoveKept(s, t, until, r, c, Finished(NothingToClear));
    }
  }

  lemma WriteKept(s: System, t: System, until: int, r: real, c: CallId)
    requires Kept(s, t, until, r) && c in t.calls && t.calls[c].Claimed?
    ensures Kept(s, AfterWrite(t, c), until, r)
  {
    var m := AfterWrite(t, c);
    assert CallOk(s, t, until, r, t.calls[c]);
    assert forall v :: HasOffer(m.bid, v) == HasOffer(t.bid, v);
    assert forall v | HasOffer(m.bid, v) :: OfferOf(m.bid, v) == OfferOf(t.bid, v);
    assert forall v :: Gone(s, m, v) == Gone(s, t, v);
    assert RateGone(s, m, r);
    forall d | d in m.calls ensures CallOk(s, m, until, r, m.calls[d]) {
      assert d != c ==> CallOk(s, t, until, r, t.calls[d]);
    }
  }

  lemma StepKept(s: System, t: System, until: int, r: real, a: Action)
    requires Kept(s, t, until, r) && IsTheRate(s, until, r) && Allowed(t, a)
    requires !a.Request? && (a.Tick? ==> a.to <= until)
    ensures Kept(s, Do(t, a), until, r)
  {
    match a
    case Tick(to) => TickKept(s, t, until, r, to);
    case ReadRate(c, u) => MoveKept(s, t, until, r, c, GotRate(u, t.bid.rate));
    case ReadOffer(c) =>
      var u := t.calls[c].offerer;
      assert CallOk(s, t, until, r, t.calls[c]);
      MoveKept(s, t, until, r, c,
        if HasOffer(t.bid, u)
        then GotOffer(u, t.calls[c].seenRate, OfferOf(t.bid, u).rate, OfferOf(t.bid, u).createdRateAt, IdOf(t, u))
        else Finished(NothingToClear));
    case LookAtClock(c) =>
      var k := t.calls[c];
      assert CallOk(s, t, until, r, k);
      if k.stamp + FRESH > t.now {
        MoveKept(s, t, until, r, c, Finished(StillFresh));
      } else {
        assert k.offerRate <= s.bid.rate ==> Applicable(s, k.offerer, until);
        MoveKept(s, t, until, r, c, Checked(k.offerer, k.offerRate, k.stamp, k.read, k.offerRate <= k.seenRate));
      }
    case ClaimOffer(c) => ClaimKept(s, t, until, r, c);
    case WriteRate(c) => WriteKept(s, t, until, r, c);
  }

  lemma {:induction false} RunKept(s: System, t: System, actions: seq<Action>, until: int, r: real)
    requires Kept(s, t, until, r) && IsTheRate(s, until, r) && Possible(t, actions) && ResolversUntil(actions, until)
    ensures Kept(s, DoAll(t, actions), until, r)
    decreases |actions|
  {
    if actions != [] {
      StepKept(s, t, until, r, actions[0]);
      assert forall i | 0 <= i < |actions| - 1 :: actions[1..][i] == actions[i + 1];
      RunKept(s, Do(t, actions[0]), actions[1..], until, r);
    }
  }

  lemma OneRateIsEnough(s: System, actions: seq<Action>, until: int)
    requires s.calls == map[] && s.now <= until && OneRate(s, until) && Completed(s, actions, until)
    ensures AtLowest(s, DoAll(s, actions))
  {
    var r := s.bid.rate;
    if u :| Applicable(s, u, until) {
      r := OfferOf(s.bid, u).rate;
    }
    assert IsTheRate(s, until, r);
    RunKept(s, s, actions, until, r);
    var t := DoAll(s, actions);
    assert !SomeClaimed(t);
    forall u | Gone(s, t, u) ensures t.bid.rate <= OfferOf(s.bid, u).rate {
      assert OfferOf(s.bid, u).rate <= s.bid.rate ==> Applicable(s, u, until);
    }
  }

  // ---------------------------------------------------------------- two rates are too many

  lemma TwoRatesMiss(s: System, u: UserId, v: UserId, until: int) returns (actions: seq<Action>)
    requires s.calls == map[] && s.now <= until && Applicable(s, u, until) && Applicable(s, v, until)
    requires OfferOf(s.bid, v).rate < OfferOf(s.bid, u).rate
    ensures Completed(s, actions, until) && !AtLowest(s, DoAll(s, actions))
  {
    var late := s.(now := until);
    var crossing := Crossing(u, v, 0, 1);
    CrossingMissesMinimum(late, u, v, 0, 1);
    actions := [Tick(until)] + crossing;
    assert actions[1..] == crossing;
    assert Do(s, actions[0]) == late;
    var t := DoAll(s, actions);
    assert t == DoAll(late, crossing);
    assert Gone(s, t, v);
  }

  /**
   From any state in which no resolver runs, and for any moment: every completed run of resolvers up to that moment
   ends at the lowest rate if and only if all offers at or below the official rate that have expired by then ask for
   one and the same rate. With `until` the present second these are the offers expired now.
   */
  lemma LowestExactlyWhen(s: System, until: int)
    requires s.calls == map[] && s.now <= until
    ensures OneRate(s, until) <==> forall actions | Completed(s, actions, until) :: AtLowest(s, DoAll(s, actions))
  {
    if OneRate(s, until) {
      forall actions | Completed(s, actions, until) ensures AtLowest(s, DoAll(s, actions)) {
        OneRateIsEnough(s, actions, until);
      }
    } else {
      var u, v :| Applicable(s, u, until) && Applicable(s, v, until) && OfferOf(s.bid, u).rate != OfferOf(s.bid, v).rate;
      var actions: seq<Action>;
      if OfferOf(s.bid, v).rate < OfferOf(s.bid, u).rate {
        actions := TwoRatesMiss(s, u, v, until);
      } else {
        actions := TwoRatesMiss(s, v, u, until);
      }
    }
  }
}
