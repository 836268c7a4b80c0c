/**
 The in-process job queue that three services share: a pending list, a draining flag, and a drain loop that
 awaits one job after the other. Code runs to completion between awaits, so the state is looked at only there:
 a turn is one enqueue, or the settling of one awaited job up to the next await.
 */
module DrainQueue {
  /** A job is known by its number in order of arrival. */
  type Job = nat

  /** `frames` are the drain loops suspended at their await, each with the job it waits for. */
  datatype Queue = Queue(pending: seq<Job>, draining: bool, frames: seq<Job>, finished: seq<Job>, arrived: nat)

  datatype Turn = Arrive | Settle(frame: nat)

  // ---------------------------------------------------------------- turns as functions

  /** The loop from its test to the next await, or to its end. */
  function LoopOn(q: Queue): Queue {
    if q.pending == [] then q.(draining := false)
    else q.(pending := q.pending[1..], frames := q.frames + [q.pending[0]])
  }

  function Drain(q: Queue): Queue {
    if q.draining then q else LoopOn(q.(draining := true))
  }

  /** Pushing a job calls the drain loop, which returns at once if one is running. */
  function Arrived(q: Queue): Queue {
    Drain(q.(pending := q.pending + [q.arrived], arrived := q.arrived + 1))
  }

  /** An awaited job has settled, well or badly; its loop goes on. */
  function Settled(q: Queue, frame: nat): Queue
    requires frame < |q.frames|
  {
    LoopOn(q.(frames := q.frames[..frame] + q.frames[frame + 1..], finished := q.finished + [q.frames[frame]]))
  }

  predicate Allowed(q: Queue, t: Turn) {
    t.Settle? ==> t.frame < |q.frames|
  }

  function Take(q: Queue, t: Turn): Queue
    requires Allowed(q, t)
  {
    match t
    case Arrive => Arrived(q)
    case Settle(frame) => Settled(q, frame)
  }

  predicate Possible(q: Queue, turns: seq<Turn>)
    decreases |turns|
  {
    turns == [] || (Allowed(q, turns[0]) && Possible(Take(q, turns[0]), turns[1..]))
  }

  function TakeAll(q: Queue, turns: seq<Turn>): Queue
    requires Possible(q, turns)
    decreases |turns|
  {
    if turns == [] then q else TakeAll(Take(q, turns[0]), turns[1..])
  }

  const EMPTY := Queue([], false, [], [], 0)

  // ---------------------------------------------------------------- what holds at every await

  function FirstJobs(n: nat): seq<Job> {
    seq(n, i => i)
  }

  /** One loop runs exactly when something is left to do, and jobs are finished, run and waiting in arrival order. */
  predicate Inv(q: Queue) {
    && |q.frames| <= 1
    && (q.draining <==> |q.frames| == 1)
    && (q.pending != [] ==> |q.frames| == 1)
    && q.finished + q.frames + q.pending == FirstJobs(q.arrived)
  }

  lemma ArrivedKeeps(q: Queue)
    requires Inv(q)
    ensures Inv(Arrived(q))
  {
    assert FirstJobs(q.arrived + 1) == FirstJobs(q.arrived) + [q.arrived];
    assert q.finished + q.frames + (q.pending + [q.arrived]) == FirstJobs(q.arrived + 1);
    if !q.draining {
      assert q.frames == [] && q.pending == [];
      assert q.finished + [q.arrived] + [] == FirstJobs(q.arrived + 1);
    }
  }

  lemma SettledKeeps(q: Queue, frame: nat)
    requires Inv(q) && frame < |q.frames|
    ensures Inv(Settled(q, frame))
  {
    var job := q.frames[0];
    assert q.frames == [job] && q.frames[..0] + q.frames[1..] == [];
    var done := q.finished + [job];
    if q.pending == [] {
      assert done + [] + [] == q.finished + q.frames + q.pending;
    } else {
      assert done + [q.pending[0]] + q.pending[1..] == q.finished + q.frames + q.pending;
    }
  }

  /** Every turn keeps the invariant, so it holds at every await of every run. */
  lemma {:induction false} HoldsAtEveryAwait(q: Queue, turns: seq<Turn>)
    requires Inv(q) && Possible(q, turns)
    ensures Inv(TakeAll(q, turns))
    decreases |turns|
  {
    if turns != [] {
      match turns[0] {
        case Arrive => ArrivedKeeps(q);
        case Settle(frame) => SettledKeeps(q, frame);
      }
      HoldsAtEveryAwait(Take(q, turns[0]), turns[1..]);
    }
  }

  /**
   In every run from the empty queue, whatever fails: waiting jobs mean exactly one running loop, at most one
   job is active, and the finished jobs are exactly the first ones to have arrived, each once and in order.
   */
  lemma FifoExactlyOnce(turns: seq<Turn>)
    requires Possible(EMPTY, turns)
    ensures var q := TakeAll(EMPTY, turns);
      && (q.pending != [] ==> |q.frames| == 1)
      && |q.frames| <= 1
      && |q.finished| <= q.arrived && q.finished == FirstJobs(|q.finished|)
      && (q.frames == [] ==> |q.finished| == q.arrived)
  {
    assert FirstJobs(0) == [];
    HoldsAtEveryAwait(EMPTY, turns);
    var q := TakeAll(EMPTY, turns);
    var all := q.finished + q.frames + q.pending;
    assert all == FirstJobs(q.arrived) && |all| == q.arrived;
    assert q.finished == all[..|q.finished|];
  }

  /** Nothing is stranded: settling what is active, again and again, finishes every job that has arrived. */
  lemma {:induction false} AllGetDone(q: Queue) returns (turns: seq<Turn>)
    requires Inv(q)
    ensures Possible(q, turns) && TakeAll(q, turns).finished == FirstJobs(q.arrived)
    ensures |turns| == |q.frames| + |q.pending|
    decreases |q.frames| + |q.pending|
  {
    if q.frames == [] {
      assert q.finished + q.frames + q.pending == q.finished;
      turns := [];
    } else {
      SettledKeeps(q, 0);
      var next := Settled(q, 0);
      var rest := AllGetDone(next);
      turns := [Settle(0)] + rest;
      assert turns[1..] == rest;
    }
  }

  // ---------------------------------------------------------------- the service object

  class JobQueue {
    var pendingJobs: seq<Job>
    var draining: bool
    /** The job each suspended drain loop awaits. */
    var frames: seq<Job>
    var finished: seq<Job>
    var arrived: nat

    function State(): Queue
      reads this
    {
      Queue(pendingJobs, draining, frames, finished, arrived)
    }

    constructor ()
      ensures State() == EMPTY && Inv(State())
    {
      pendingJobs, draining, frames, finished, arrived := [], false, [], [], 0;
    }

    method Enqueue()
      modifies this
      ensures State() == Arrived(old(State()))
      ensures old(Inv(State())) ==> Inv(State())
    {
      if Inv(State()) {
        ArrivedKeeps(State());
      }
      pendingJobs := pendingJobs + [arrived];
      arrived := arrived + 1;
      DrainFromStart();
    }

    method DrainFromStart()
      modifies this
      ensures State() == Drain(old(State()))
    {
      if draining {
        return;
      }
      draining := true;
      DrainLoop();
    }

    /** The test of the loop, then either the next await or the code after the loop. */
    method DrainLoop()
      requires draining
      modifies this
      ensures State() == LoopOn(old(State()))
    {
      if |pendingJobs| > 0 {
        var job := pendingJobs[0];
        pendingJobs := pendingJobs[1..];
        frames := frames + [job];
        return;
      }
      draining := false;
      // The source drains again here if a job came in meanwhile; between awaits none can.
      assert pendingJobs == [];
    }

    /** The awaited job of one loop has settled; errors are caught, so both outcomes go on alike. */
    method JobSettled(frame: nat)
      requires Inv(State()) && frame < |frames|
      modifies this
      ensures State() == Settled(old(State()), frame)
      ensures Inv(State())
    {
      SettledKeeps(State(), frame);
      finished := finished + [frames[frame]];
      frames := frames[..frame] + frames[frame + 1..];
      DrainLoop();
    }
  }
}
