/**
 One broadcast job: users are sent to in batches, the sends of a batch run together and may fail one by one, and
 the job pauses between batches.
 */
module PushBroadcast {
  type UserId = string

  const USER_BATCH_SIZE := 25

  /** What the job does to the outside, in order. */
  datatype Act = Batch(users: seq<UserId>) | Pause

  datatype Outcome = Outcome(acts: seq<Act>, sent: nat, failed: nat)

  /** The plan of a job. */
  function Script(users: seq<UserId>): seq<Act>
    decreases |users|
  {
    if users == [] then []
    else if |users| <= USER_BATCH_SIZE then [Batch(users)]
    else [Batch(users[..USER_BATCH_SIZE]), Pause] + Script(users[USER_BATCH_SIZE..])
  }

  function Recipients(acts: seq<Act>): seq<UserId> {
    if acts == [] then []
    else (if acts[0].Batch? then acts[0].users else []) + Recipients(acts[1..])
  }

  function Pauses(acts: seq<Act>): nat {
    if acts == [] then 0 else (if acts[0].Pause? then 1 else 0) + Pauses(acts[1..])
  }

  function Delivered(users: seq<UserId>, works: UserId -> bool): nat {
    if users == [] then 0
    else Delivered(users[..|users| - 1], works) + if works(users[|users| - 1]) then 1 else 0
  }

  /** Batches and pauses take turns; it starts and ends with a batch. */
  predicate Alternates(acts: seq<Act>) {
    && forall i | 0 <= i < |acts| :: acts[i].Batch? <==> i % 2 == 0
  }

  predicate BatchesFit(acts: seq<Act>) {
    forall i | 0 <= i < |acts| && acts[i].Batch? :: 1 <= |acts[i].users| <= USER_BATCH_SIZE
  }

  lemma {:induction false} DeliveredSplit(a: seq<UserId>, b: seq<UserId>, works: UserId -> bool)
    ensures Delivered(a + b, works) == Delivered(a, works) + Delivered(b, works)
  {
    if b == [] {
      assert a + b == a;
    } else {
      DeliveredSplit(a, b[..|b| - 1], works);
      assert (a + b)[..|a + b| - 1] == a + b[..|b| - 1];
    }
  }

  lemma PairInFront(users: seq<UserId>, acts: seq<Act>)
    ensures var all := [Batch(users), Pause] + acts;
      Recipients(all) == users + Recipients(acts) && Pauses(all) == 1 + Pauses(acts)
  {
    var all := [Batch(users), Pause] + acts;
    assert all[1..] == [Pause] + acts && all[1..][1..] == acts;
    assert Recipients([Pause] + acts) == [] + Recipients(acts);
  }

  lemma ShapeInFront(users: seq<UserId>, acts: seq<Act>)
    requires 1 <= |users| <= USER_BATCH_SIZE && Alternates(acts) && BatchesFit(acts)
    ensures Alternates([Batch(users), Pause] + acts) && BatchesFit([Batch(users), Pause] + acts)
  {
    var all := [Batch(users), Pause] + acts;
    assert forall i | 2 <= i < |all| :: all[i] == acts[i - 2] && i % 2 == (i - 2) % 2;
  }

  /**
   The plan reaches every user exactly once and in order, in batches within the limit with one pause between any
   two of them, and none at the end.
   */
  lemma {:induction false} ScriptReachesAll(users: seq<UserId>)
    ensures var acts := Script(users);
      && Recipients(acts) == users
      && Alternates(acts) && BatchesFit(acts)
      && (users != [] ==> acts != [] && acts[|acts| - 1].Batch?)
      && Pauses(acts) == if users == [] then 0 else (|users| - 1) / USER_BATCH_SIZE
    decreases |users|
  {
    if |users| > USER_BATCH_SIZE {
      var first, rest := users[..USER_BATCH_SIZE], users[USER_BATCH_SIZE..];
      ScriptReachesAll(rest);
      PairInFront(first, Script(rest));
      ShapeInFront(first, Script(rest));
      assert first + rest == users;
    } else if users != [] {
      assert Script(users)[1..] == [];
    }
  }

  function Rest(users: seq<UserId>, i: nat): seq<UserId> {
    if i < |users| then users[i..] else []
  }

  lemma ScriptNext(users: seq<UserId>, i: nat, end: nat)
    requires i < |users| && end == if i + USER_BATCH_SIZE <= |users| then i + USER_BATCH_SIZE else |users|
    ensures Script(Rest(users, i)) ==
      (if i + USER_BATCH_SIZE < |users| then [Batch(users[i..end]), Pause] else [Batch(users[i..end])])
        + Script(Rest(users, i + USER_BATCH_SIZE))
  {
    var left := users[i..];
    if i + USER_BATCH_SIZE < |users| {
      assert left[..USER_BATCH_SIZE] == users[i..end] && left[USER_BATCH_SIZE..] == users[i + USER_BATCH_SIZE..];
    } else {
      assert left == users[i..end];
    }
  }

  /** The results of one batch, counted. */
  method CountResults(batch: seq<UserId>, works: UserId -> bool) returns (sent: nat, failed: nat)
    ensures sent == Delivered(batch, works) && sent + failed == |batch|
  {
    sent, failed := 0, 0;
    var i := 0;
    while i < |batch|
      invariant 0 <= i <= |batch| && sent == Delivered(batch[..i], works) && sent + failed == i
    {
      assert batch[..i + 1][..i] == batch[..i];
      if works(batch[i]) {
        sent := sent + 1;
      } else {
        failed := failed + 1;
      }
      i := i + 1;
    }
    assert batch[..i] == batch;
  }

  /** `message` is trimmed; `works` says whose push succeeds. A failure stops nothing; all users are counted. */
  method ProcessJob(message: string, userIds: seq<UserId>, works: UserId -> bool) returns (r: Outcome)
    ensures message == "" ==> r == Outcome([], 0, 0)
    ensures message != "" ==>
      r.acts == Script(userIds) && r.sent == Delivered(userIds, works) && r.sent + r.failed == |userIds|
  {
    if message == "" {
      return Outcome([], 0, 0);
    }
    var acts, sent, failed, i := [], 0, 0, 0;
    while i < |userIds|
      invariant 0 <= i
      invariant acts + Script(Rest(userIds, i)) == Script(userIds)
      invariant i < |userIds| ==> sent == Delivered(userIds[..i], works) && sent + failed == i
      invariant i >= |userIds| ==> sent == Delivered(userIds, works) && sent + failed == |userIds|
    {
      var end := if i + USER_BATCH_SIZE <= |userIds| then i + USER_BATCH_SIZE else |userIds|;
      var batch := userIds[i..end];
      var ok, bad := CountResults(batch, works);
      DeliveredSplit(userIds[..i], batch, works);
      assert userIds[..i] + batch == userIds[..end];
      sent, failed := sent + ok, failed + bad;
      ScriptNext(userIds, i, end);
      acts := acts + [Batch(batch)];
      if i + USER_BATCH_SIZE < |userIds| {
        acts := acts + [Pause];
      }
      i := i + USER_BATCH_SIZE;
      assert i >= |userIds| ==> userIds[..end] == userIds;
    }
    return Outcome(acts, sent, failed);
  }
}
