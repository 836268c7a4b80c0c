/** Cutting runs of a bid into prefixes. */
module AuctionRuns {
  import opened Auction

  lemma {:induction false} RunAppend(b: Bid, now: int, events: seq<Event>, e: Event)
    requires IsRun(b, now, events) && Enabled(Exec(b, events), EndTime(now, events), e)
    ensures IsRun(b, now, events + [e])
    ensures Exec(b, events + [e]) == Step(Exec(b, events), e).bid
    ensures EndTime(now, events + [e]) == e.now
    decreases |events|
  {
    if events == [] {
      assert (events + [e])[1..] == [];
    } else {
      assert (events + [e])[1..] == events[1..] + [e];
      RunAppend(Step(b, events[0]).bid, events[0].now, events[1..], e);
    }
  }

  /** The last event of a run is enabled after the events before it, and is the last step. */
  lemma {:induction false} RunSnoc(b: Bid, now: int, events: seq<Event>)
    requires events != [] && IsRun(b, now, events)
    ensures var n := |events| - 1;
      && IsRun(b, now, events[..n])
      && Enabled(Exec(b, events[..n]), EndTime(now, events[..n]), events[n])
      && Exec(b, events) == Step(Exec(b, events[..n]), events[n]).bid
    decreases |events|
  {
    var n := |events| - 1;
    if n > 0 {
      var c := Step(b, events[0]).bid;
      RunSnoc(c, events[0].now, events[1..]);
      assert events[1..][..n - 1] == events[..n][1..];
      assert events[1..][n - 1] == events[n];
    }
  }

  lemma {:induction false} RunPrefix(b: Bid, now: int, events: seq<Event>, k: nat)
    requires IsRun(b, now, events) && k <= |events|
    ensures IsRun(b, now, events[..k])
    decreases |events|
  {
    if k < |events| {
      RunSnoc(b, now, events);
      RunPrefix(b, now, events[..|events| - 1], k);
      assert events[..|events| - 1][..k] == events[..k];
    } else {
      assert events[..k] == events;
    }
  }
}
