/** The sync when messages may share their creation stamp: exactly when it skips one. */
module MessageSyncTies {
  import opened Options
  import opened MessageSync

  /** The first message stamped later than `h[k]`. */
  function NextStamp(h: seq<Message>, k: nat): (i: nat)
    requires k < |h|
    ensures k < i <= |h|
    ensures i < |h| ==> h[k].createdAt < h[i].createdAt
    ensures forall j | k < j < i :: h[j].createdAt <= h[k].createdAt
    decreases |h| - k
  {
    NextFrom(h, h[k].createdAt, k + 1)
  }

  function NextFrom(h: seq<Message>, t: int, from: nat): (i: nat)
    requires from <= |h|
    ensures from <= i <= |h|
    ensures i < |h| ==> t < h[i].createdAt
    ensures forall j | from <= j < i :: h[j].createdAt <= t
    decreases |h| - from
  {
    if from == |h| || t < h[from].createdAt then from else NextFrom(h, t, from + 1)
  }

  /** Message `k` is the last one of its stamp. */
  predicate EndsStamp(h: seq<Message>, k: nat)
    requires k < |h|
  {
    k + 1 == |h| || h[k].createdAt < h[k + 1].createdAt
  }

  lemma AfterStamp(h: seq<Message>, k: nat)
    requires IsOrdered(h) && k < |h|
    ensures After(h, h[k].createdAt) == h[NextStamp(h, k)..]
  {
    var j := AfterIsSuffix(h, h[k].createdAt);
    var i := NextStamp(h, k);
    assert i < |h| ==> j <= i;
    assert j < |h| ==> h[j].createdAt > h[k].createdAt && j > k && j >= i;
  }

  lemma BatchFromStamp(h: seq<Message>, cutoff: Option<int>, k: nat, limit: nat)
    requires IsOrdered(h) && k < |h| && IsVisible(h[k], cutoff)
    ensures Batch(h, cutoff, Some(h[k].id), limit) == Oldest(h[NextStamp(h, k)..], limit)
  {
    FindByIdAt(h, k);
    AfterStamp(h, k);
    assert StartAfter(h[k], cutoff) == h[k].createdAt;
  }

  lemma OldestEmpty(h: seq<Message>, i: nat, limit: nat)
    requires i <= |h| && limit >= 1
    ensures Oldest(h[i..], limit) == [] <==> i == |h|
  {
  }

  /** From a visible anchor the answer starts after the anchor's stamp. */
  lemma SyncFromStamp(h: seq<Message>, cutoff: Option<int>, k: nat, limit: nat)
    requires IsOrdered(h) && k < |h| && IsVisible(h[k], cutoff) && limit >= 1
    ensures var r := Sync(h, cutoff, Some(h[k].id), limit);
      r.messages == Oldest(h[NextStamp(h, k)..], limit) && (r.upToDate <==> NextStamp(h, k) == |h|)
  {
    LatestVisible(h, cutoff, k);
    BatchFromStamp(h, cutoff, k, limit);
    OldestEmpty(h, NextStamp(h, k), limit);
    assert k < |h| - 1 ==> h[k].id != h[|h| - 1].id;
  }

  lemma OldestHead(h: seq<Message>, i: nat, limit: nat)
    requires i < |h| && limit >= 1
    ensures Oldest(h[i..], limit) != [] && Oldest(h[i..], limit)[0] == h[i]
  {
  }

  /** One answer is the next messages if and only if the anchor is the last of its stamp. */
  lemma AnswersNextExactlyWhen(h: seq<Message>, cutoff: Option<int>, k: nat, limit: nat)
    requires IsOrdered(h) && k < |h| && IsVisible(h[k], cutoff) && limit >= 1
    ensures AnswersNext(h, Answer(h, cutoff, limit), k, limit) <==> EndsStamp(h, k)
  {
    var i := NextStamp(h, k);
    SyncFromStamp(h, cutoff, k, limit);
    if EndsStamp(h, k) {
      assert i == k + 1;
    } else {
      assert k + 1 < i;
      OldestHead(h, k + 1, limit);
      if i < |h| {
        OldestHead(h, i, limit);
        assert h[i].id != h[k + 1].id;
      } else {
        assert h[i..] == [];
      }
    }
  }

  // ---------------------------------------------------------------- a skipped message is lost

  lemma VisibleLater(h: seq<Message>, cutoff: Option<int>, k: nat, i: nat)
    requires IsOrdered(h) && k <= i < |h| && IsVisible(h[k], cutoff)
    ensures IsVisible(h[i], cutoff)
  {
    assert k < i ==> h[k].createdAt <= h[i].createdAt;
  }

  /** The messages delivered lack `h[p + 1]`, and the anchor is `h[p]` or a later one. */
  ghost predicate Missed(h: seq<Message>, p: nat, rounds: (seq<Message>, MessageId))
    requires p + 1 < |h|
  {
    h[p + 1] !in rounds.0 && exists q: nat :: p <= q < |h| && rounds.1 == h[q].id
  }

  /** Asked from message `q`, the answer starts after the stamp of `q`. */
  predicate AnswersStamp(h: seq<Message>, answer: MessageId -> seq<Message>, q: nat, limit: nat)
    requires q < |h|
  {
    answer(h[q].id) == Oldest(h[NextStamp(h, q)..], limit)
  }

  /** What comes after a stamp is stamped later. */
  lemma BatchIsLater(h: seq<Message>, q: nat, limit: nat, batch: seq<Message>)
    requires IsOrdered(h) && q < |h| && batch == Oldest(h[NextStamp(h, q)..], limit)
    ensures forall j | 0 <= j < |batch| :: h[q].createdAt < batch[j].createdAt
    ensures batch != [] ==> NextStamp(h, q) + |batch| <= |h| && batch[|batch| - 1] == h[NextStamp(h, q) + |batch| - 1]
  {
    var i := NextStamp(h, q);
    forall j | 0 <= j < |batch| ensures h[q].createdAt < batch[j].createdAt {
      assert batch[j] == h[i + j] && (j > 0 ==> h[i].createdAt <= h[i + j].createdAt);
    }
  }

  lemma MissedNext(h: seq<Message>, p: nat, limit: nat, got: seq<Message>, q: nat, batch: seq<Message>)
    requires IsOrdered(h) && p <= q < |h| && p + 1 < |h| && !EndsStamp(h, p) && h[p + 1] !in got
    requires batch == Oldest(h[NextStamp(h, q)..], limit)
    ensures Missed(h, p, (got + batch, if batch == [] then h[q].id else batch[|batch| - 1].id))
  {
    BatchIsLater(h, q, limit, batch);
    assert h[p].createdAt <= h[q].createdAt && h[p + 1].createdAt == h[p].createdAt;
    var next := if batch == [] then q else NextStamp(h, q) + |batch| - 1;
    assert p <= next < |h| && (if batch == [] then h[q].id else batch[|batch| - 1].id) == h[next].id;
  }

  lemma {:induction false} MissedForever(h: seq<Message>, answer: MessageId -> seq<Message>, anchor: MessageId, p: nat,
                                         limit: nat, m: nat, n: nat)
    requires IsOrdered(h) && p + 1 < |h| && !EndsStamp(h, p) && m <= n
    requires forall q | p <= q < |h| :: AnswersStamp(h, answer, q, limit)
    requires Missed(h, p, Rounds(answer, anchor, m))
    ensures Missed(h, p, Rounds(answer, anchor, n))
    decreases n
  {
    if m < n {
      MissedForever(h, answer, anchor, p, limit, m, n - 1);
      var (got, last) := Rounds(answer, anchor, n - 1);
      var q: nat :| p <= q < |h| && last == h[q].id;
      assert AnswersStamp(h, answer, q, limit);
      MissedNext(h, p, limit, got, q, answer(last));
    }
  }

  // ---------------------------------------------------------------- whole syncs

  /** The batch that follows the anchor of round `m` starts with the next message. */
  predicate EndsAt(h: seq<Message>, k: nat, limit: nat, m: nat)
    requires k < |h|
  {
    EndsStamp(h, Position(|h| - 1, k, limit, m))
  }

  /** No batch of the sync, counted from its start, ends inside a run of messages of one stamp. */
  ghost predicate NoCut(h: seq<Message>, k: nat, limit: nat, n: nat)
    requires k < |h|
  {
    forall m: nat | m < n :: EndsAt(h, k, limit, m)
  }

  lemma UncutDelivers(h: seq<Message>, cutoff: Option<int>, k: nat, limit: nat, n: nat)
    requires IsOrdered(h) && k < |h| && IsVisible(h[k], cutoff) && limit >= 1 && NoCut(h, k, limit, n)
    ensures var j := Position(|h| - 1, k, limit, n);
      Rounds(Answer(h, cutoff, limit), h[k].id, n) == (h[k + 1..j + 1], h[j].id)
  {
    forall m: nat | m < n ensures AnswersAt(h, Answer(h, cutoff, limit), k, limit, m) {
      assert EndsAt(h, k, limit, m);
      var i := Position(|h| - 1, k, limit, m);
      VisibleLater(h, cutoff, k, i);
      AnswersNextExactlyWhen(h, cutoff, i, limit);
    }
    RoundsReach(h, Answer(h, cutoff, limit), k, limit, n);
  }

  /** The first batch that ends inside a run of one stamp. */
  lemma {:induction false} FirstCut(h: seq<Message>, k: nat, limit: nat, n: nat) returns (m: nat)
    requires k < |h| && !NoCut(h, k, limit, n)
    ensures m < n && NoCut(h, k, limit, m) && !EndsAt(h, k, limit, m)
    decreases n
  {
    if NoCut(h, k, limit, n - 1) {
      m := n - 1;
    } else {
      m := FirstCut(h, k, limit, n - 1);
    }
  }

  lemma NotAmongEarlier(h: seq<Message>, k: nat, p: nat)
    requires IsOrdered(h) && k <= p && p + 1 < |h|
    ensures h[p + 1] !in h[k + 1..p + 1]
  {
    assert forall i | k < i <= p :: h[i].id != h[p + 1].id && h[i] != h[p + 1];
  }

  lemma CutLoses(h: seq<Message>, cutoff: Option<int>, k: nat, limit: nat, n: nat)
    requires IsOrdered(h) && k < |h| && IsVisible(h[k], cutoff) && limit >= 1 && !NoCut(h, k, limit, n)
    ensures exists i | k < i < |h| :: h[i] !in Rounds(Answer(h, cutoff, limit), h[k].id, n).0
  {
    var m := FirstCut(h, k, limit, n);
    var p := Position(|h| - 1, k, limit, m);
    UncutDelivers(h, cutoff, k, limit, m);
    NotAmongEarlier(h, k, p);
    var answer := Answer(h, cutoff, limit);
    assert Missed(h, p, Rounds(answer, h[k].id, m));
    forall q | p <= q < |h| ensures AnswersStamp(h, answer, q, limit) {
      VisibleLater(h, cutoff, k, q);
      SyncFromStamp(h, cutoff, q, limit);
    }
    MissedForever(h, answer, h[k].id, p, limit, m, n);
  }

  /**
   From any visible anchor, with enough rounds: every later message is delivered, once and in order, if and only if
   no batch ends inside a run of messages of one stamp; otherwise some message never comes.
   */
  lemma DeliversAllExactlyWhen(h: seq<Message>, cutoff: Option<int>, k: nat, limit: nat, n: nat)
    requires IsOrdered(h) && k < |h| && IsVisible(h[k], cutoff) && limit >= 1 && n >= |h|
    ensures Rounds(Answer(h, cutoff, limit), h[k].id, n).0 == h[k + 1..] <==> NoCut(h, k, limit, n)
    ensures !NoCut(h, k, limit, n) ==>
      exists i | k < i < |h| :: h[i] !in Rounds(Answer(h, cutoff, limit), h[k].id, n).0
  {
    if NoCut(h, k, limit, n) {
      UncutDelivers(h, cutoff, k, limit, n);
      PositionIsReached(h, k, limit, n);
      EnoughRounds(h, k, limit, n);
    } else {
      CutLoses(h, cutoff, k, limit, n);
      var i :| k < i < |h| && h[i] !in Rounds(Answer(h, cutoff, limit), h[k].id, n).0;
      assert h[k + 1..][i - k - 1] == h[i];
    }
  }
}
