/**
 The anchor-based sync of one room: the client names the last message it holds, the server answers with the
 next ones, and the client repeats from the last message of the answer.
 */
module MessageSync {
  import opened Options

  type MessageId = string

  datatype Message = Message(id: MessageId, createdAt: int)

  datatype Response = Response(messages: seq<Message>, lastMessage: Option<Message>, upToDate: bool)

  /** The room's messages by creation stamp, which is distinct, as the id is. */
  ghost predicate IsHistory(h: seq<Message>) {
    forall i, j :: 0 <= i < j < |h| ==> h[i].createdAt < h[j].createdAt && h[i].id != h[j].id
  }

  /** The same with stamps that may be shared; the database returns sharers in one fixed order. */
  ghost predicate IsOrdered(h: seq<Message>) {
    forall i, j :: 0 <= i < j < |h| ==> h[i].createdAt <= h[j].createdAt && h[i].id != h[j].id
  }

  // ---------------------------------------------------------------- the queries

  function NotBefore(h: seq<Message>, t: int): seq<Message> {
    if h == [] then []
    else if h[0].createdAt >= t then [h[0]] + NotBefore(h[1..], t) else NotBefore(h[1..], t)
  }

  function After(h: seq<Message>, t: int): seq<Message> {
    if h == [] then []
    else if h[0].createdAt > t then [h[0]] + After(h[1..], t) else After(h[1..], t)
  }

  function FindById(h: seq<Message>, id: MessageId): Option<Message> {
    if h == [] then None
    else if h[0].id == id then Some(h[0]) else FindById(h[1..], id)
  }

  function Oldest(s: seq<Message>, limit: nat): seq<Message> {
    if |s| <= limit then s else s[..limit]
  }

  function Newest(s: seq<Message>, limit: nat): seq<Message> {
    if |s| <= limit then s else s[|s| - limit..]
  }

  /** What a user may see: drivers start at the moment they joined. */
  function Visible(h: seq<Message>, cutoff: Option<int>): seq<Message> {
    match cutoff
    case None => h
    case Some(t) => NotBefore(h, t)
  }

  /** Where the messages after an anchor start: never before the cutoff. */
  function StartAfter(anchor: Message, cutoff: Option<int>): int {
    match cutoff
    case None => anchor.createdAt
    case Some(t) => if anchor.createdAt > t then anchor.createdAt else t
  }

  function Batch(h: seq<Message>, cutoff: Option<int>, last: Option<MessageId>, limit: nat): seq<Message> {
    var anchor := if last.Some? then FindById(h, last.value) else None;
    match anchor
    case None => Newest(Visible(h, cutoff), limit)
    case Some(a) => Oldest(After(h, StartAfter(a, cutoff)), limit)
  }

  function Sync(h: seq<Message>, cutoff: Option<int>, last: Option<MessageId>, limit: nat): Response {
    var visible := Visible(h, cutoff);
    if visible == [] then Response([], None, true)
    else
      var latest := visible[|visible| - 1];
      if last == Some(latest.id) then Response([], Some(latest), true)
      else
        var batch := Batch(h, cutoff, last, limit);
        Response(batch, Some(latest), batch == [])
  }

  // ---------------------------------------------------------------- what the queries return

  lemma {:induction false} AfterIsSuffix(h: seq<Message>, t: int) returns (k: nat)
    requires IsOrdered(h)
    ensures k <= |h| && After(h, t) == h[k..]
    ensures forall i | 0 <= i < |h| :: h[i].createdAt > t <==> k <= i
  {
    if h == [] {
      k := 0;
    } else {
      var rest := AfterIsSuffix(h[1..], t);
      if h[0].createdAt > t {
        assert forall i | 0 <= i < |h| :: i > 0 ==> h[i] == h[1..][i - 1];
        assert rest == 0 by {
          if |h| > 1 {
            assert h[1..][0].createdAt > t;
          }
        }
        assert h == [h[0]] + h[1..];
        k := 0;
      } else {
        k := rest + 1;
        assert h[k..] == h[1..][rest..];
        assert forall i | 0 < i < |h| :: h[i] == h[1..][i - 1];
      }
    }
  }

  lemma {:induction false} NotBeforeIsAfter(h: seq<Message>, t: int)
    ensures NotBefore(h, t) == After(h, t - 1)
  {
    if h != [] {
      NotBeforeIsAfter(h[1..], t);
    }
  }

  lemma {:induction false} FindByIdAt(h: seq<Message>, k: nat)
    requires IsOrdered(h) && k < |h|
    ensures FindById(h, h[k].id) == Some(h[k])
  {
    if k > 0 {
      assert h[1..][k - 1] == h[k];
      FindByIdAt(h[1..], k - 1);
    }
  }

  lemma AfterMessage(h: seq<Message>, k: nat)
    requires IsHistory(h) && k < |h|
    ensures After(h, h[k].createdAt) == h[k + 1..]
  {
    var j := AfterIsSuffix(h, h[k].createdAt);
    assert j > k;
    assert k + 1 < |h| ==> h[k + 1].createdAt > h[k].createdAt;
  }

  predicate IsVisible(m: Message, cutoff: Option<int>) {
    cutoff.Some? ==> m.createdAt >= cutoff.value
  }

  /** A visible message is followed, in what the user may see, by all later messages. */
  lemma VisibleSuffix(h: seq<Message>, cutoff: Option<int>, k: nat) returns (start: nat)
    requires IsOrdered(h) && k < |h| && IsVisible(h[k], cutoff)
    ensures start <= k && Visible(h, cutoff) == h[start..]
    ensures forall i | 0 <= i < |h| :: IsVisible(h[i], cutoff) <==> start <= i
  {
    match cutoff
    case None => start := 0;
    case Some(t) =>
      NotBeforeIsAfter(h, t);
      start := AfterIsSuffix(h, t - 1);
  }

  // ---------------------------------------------------------------- one answer

  lemma BatchFromAnchor(h: seq<Message>, cutoff: Option<int>, k: nat, limit: nat)
    requires IsHistory(h) && k < |h| && IsVisible(h[k], cutoff)
    ensures Batch(h, cutoff, Some(h[k].id), limit) == Oldest(h[k + 1..], limit)
  {
    FindByIdAt(h, k);
    AfterMessage(h, k);
    assert StartAfter(h[k], cutoff) == h[k].createdAt;
  }

  lemma LatestVisible(h: seq<Message>, cutoff: Option<int>, k: nat)
    requires IsOrdered(h) && k < |h| && IsVisible(h[k], cutoff)
    ensures var visible := Visible(h, cutoff); visible != [] && visible[|visible| - 1] == h[|h| - 1]
  {
    var start := VisibleSuffix(h, cutoff, k);
    assert h[start..][|h| - start - 1] == h[|h| - 1];
  }

  /** From a visible anchor the answer is the next `limit` messages, and nothing exactly at the end. */
  lemma SyncFromAnchor(h: seq<Message>, cutoff: Option<int>, k: nat, limit: nat)
    requires IsHistory(h) && k < |h| && IsVisible(h[k], cutoff) && limit >= 1
    ensures var r := Sync(h, cutoff, Some(h[k].id), limit);
      && r.messages == Oldest(h[k + 1..], limit)
      && (r.upToDate <==> k + 1 == |h|)
      && r.lastMessage == Some(h[|h| - 1])
  {
    LatestVisible(h, cutoff, k);
    BatchFromAnchor(h, cutoff, k, limit);
    assert h[k].id == h[|h| - 1].id <==> k == |h| - 1;
    assert Oldest(h[k + 1..], limit) == [] <==> k + 1 == |h|;
  }

  lemma {:induction false} FindByIdFinds(h: seq<Message>, id: MessageId)
    ensures FindById(h, id).None? <==> forall i | 0 <= i < |h| :: h[i].id != id
  {
    if h != [] {
      FindByIdFinds(h[1..], id);
      assert forall i | 1 <= i < |h| :: h[i] == h[1..][i - 1];
    }
  }

  lemma NewestIs(h: seq<Message>, start: nat, limit: nat) returns (from: nat)
    requires start < |h| && limit >= 1
    ensures start <= from < |h| && Newest(h[start..], limit) == h[from..]
    ensures |h| - from <= limit && (|h| - from < limit ==> from == start)
  {
    from := if |h| - start <= limit then start else |h| - limit;
    assert Newest(h[start..], limit) == h[from..];
  }

  predicate Unknown(h: seq<Message>, last: Option<MessageId>) {
    last.Some? ==> forall i | 0 <= i < |h| :: h[i].id != last.value
  }

  lemma FreshBatch(h: seq<Message>, cutoff: Option<int>, last: Option<MessageId>, limit: nat)
    requires IsHistory(h) && h != [] && IsVisible(h[|h| - 1], cutoff) && Unknown(h, last)
    ensures Sync(h, cutoff, last, limit).messages == Newest(Visible(h, cutoff), limit)
  {
    LatestVisible(h, cutoff, |h| - 1);
    assert last != Some(h[|h| - 1].id);
    if last.Some? {
      FindByIdFinds(h, last.value);
    }
  }

  /**
   A client without messages, or with an anchor that is gone, gets the newest visible messages, as many as allowed,
   and is up to date with them.
   */
  lemma FreshClientIsCurrent(h: seq<Message>, cutoff: Option<int>, last: Option<MessageId>, limit: nat) returns (from: nat)
    requires IsHistory(h) && h != [] && IsVisible(h[|h| - 1], cutoff) && limit >= 1 && Unknown(h, last)
    ensures from < |h| && |h| - from <= limit
    ensures Sync(h, cutoff, last, limit).messages == h[from..]
    ensures IsVisible(h[from], cutoff)
    ensures |h| - from < limit ==> forall i | 0 <= i < from :: !IsVisible(h[i], cutoff)
    ensures Sync(h, cutoff, Some(h[|h| - 1].id), limit).upToDate
  {
    var n := |h| - 1;
    var start := VisibleSuffix(h, cutoff, n);
    from := NewestIs(h, start, limit);
    FreshBatch(h, cutoff, last, limit);
    SyncFromAnchor(h, cutoff, n, limit);
  }

  // ---------------------------------------------------------------- repeating

  /** The messages answered to a client whose last message is `last`. */
  function Answer(h: seq<Message>, cutoff: Option<int>, limit: nat): MessageId -> seq<Message> {
    last => Sync(h, cutoff, Some(last), limit).messages
  }

  /** What `n` rounds of asking deliver, and the anchor of the next one. */
  function Rounds(answer: MessageId -> seq<Message>, anchor: MessageId, n: nat): (seq<Message>, MessageId) {
    if n == 0 then ([], anchor)
    else
      var (got, last) := Rounds(answer, anchor, n - 1);
      var batch := answer(last);
      (got + batch, if batch == [] then last else batch[|batch| - 1].id)
  }

  /** The position reached after `n` rounds from `k`. */
  function Reached(h: seq<Message>, k: nat, limit: nat, n: nat): nat
    requires k < |h|
  {
    if k + n * limit < |h| - 1 then k + n * limit else |h| - 1
  }

  /** The same position, one round at a time. */
  function Position(last: nat, k: nat, limit: nat, n: nat): (i: nat)
    requires k <= last
    ensures k <= i <= last
  {
    if n == 0 then k
    else
      var i := Position(last, k, limit, n - 1);
      if i + limit < last then i + limit else last
  }

  lemma {:induction false} PositionIsReached(h: seq<Message>, k: nat, limit: nat, n: nat)
    requires k < |h|
    ensures Position(|h| - 1, k, limit, n) == Reached(h, k, limit, n)
  {
    if n == 0 {
      assert 0 * limit == 0;
    } else {
      PositionIsReached(h, k, limit, n - 1);
      assert n * limit == (n - 1) * limit + limit;
    }
  }

  /** Asked from message `i`, the answer is the next `limit` messages. */
  predicate AnswersNext(h: seq<Message>, answer: MessageId -> seq<Message>, i: nat, limit: nat)
    requires i < |h|
  {
    answer(h[i].id) == Oldest(h[i + 1..], limit)
  }

  /** The same at the position reached after `m` rounds. */
  predicate AnswersAt(h: seq<Message>, answer: MessageId -> seq<Message>, k: nat, limit: nat, m: nat)
    requires k < |h|
  {
    AnswersNext(h, answer, Position(|h| - 1, k, limit, m), limit)
  }

  lemma RoundsNext(h: seq<Message>, answer: MessageId -> seq<Message>, k: nat, limit: nat, n: nat, i: nat, j: nat)
    requires k <= i < |h| && limit >= 1 && n >= 1 && AnswersNext(h, answer, i, limit)
    requires Rounds(answer, h[k].id, n - 1) == (h[k + 1..i + 1], h[i].id)
    requires j == if i + limit < |h| - 1 then i + limit else |h| - 1
    ensures Rounds(answer, h[k].id, n) == (h[k + 1..j + 1], h[j].id)
  {
    NextSlice(h, k, i, j, limit, answer(h[i].id));
  }

  /** Rounds whose answers are always the next messages deliver all of them in order. */
  lemma {:induction false} RoundsReach(h: seq<Message>, answer: MessageId -> seq<Message>, k: nat, limit: nat, n: nat)
    requires k < |h| && limit >= 1
    requires forall m: nat | m < n :: AnswersAt(h, answer, k, limit, m)
    ensures var j := Position(|h| - 1, k, limit, n);
      k <= j < |h| && Rounds(answer, h[k].id, n) == (h[k + 1..j + 1], h[j].id)
  {
    if n == 0 {
      assert h[k + 1..k + 1] == [];
    } else {
      RoundsReach(h, answer, k, limit, n - 1);
      var i := Position(|h| - 1, k, limit, n - 1);
      assert AnswersAt(h, answer, k, limit, n - 1);
      RoundsNext(h, answer, k, limit, n, i, Position(|h| - 1, k, limit, n));
    }
  }

  lemma NextSlice(h: seq<Message>, k: nat, i: nat, j: nat, limit: nat, batch: seq<Message>)
    requires k <= i < |h| && limit >= 1 && batch == Oldest(h[i + 1..], limit)
    requires j == if i + limit < |h| - 1 then i + limit else |h| - 1
    ensures h[k + 1..i + 1] + batch == h[k + 1..j + 1]
    ensures (if batch == [] then h[i].id else batch[|batch| - 1].id) == h[j].id
  {
    assert batch == h[i + 1..j + 1];
  }

  lemma LaterVisible(h: seq<Message>, cutoff: Option<int>, k: nat, i: nat)
    requires IsHistory(h) && k <= i < |h| && IsVisible(h[k], cutoff)
    ensures IsVisible(h[i], cutoff)
  {
    assert k < i ==> h[k].createdAt < h[i].createdAt;
  }

  lemma AnswersAreNext(h: seq<Message>, cutoff: Option<int>, k: nat, limit: nat)
    requires IsHistory(h) && k < |h| && IsVisible(h[k], cutoff) && limit >= 1
    ensures forall i | k <= i < |h| :: AnswersNext(h, Answer(h, cutoff, limit), i, limit)
  {
    forall i | k <= i < |h| ensures AnswersNext(h, Answer(h, cutoff, limit), i, limit) {
      LaterVisible(h, cutoff, k, i);
      SyncFromAnchor(h, cutoff, i, limit);
    }
  }

  lemma RoundsFromAnchor(h: seq<Message>, cutoff: Option<int>, k: nat, limit: nat, n: nat, j: nat)
    requires IsHistory(h) && k < |h| && IsVisible(h[k], cutoff) && limit >= 1
    requires j == Position(|h| - 1, k, limit, n)
    ensures k <= j < |h| && Rounds(Answer(h, cutoff, limit), h[k].id, n) == (h[k + 1..j + 1], h[j].id)
  {
    AnswersAreNext(h, cutoff, k, limit);
    RoundsReach(h, Answer(h, cutoff, limit), k, limit, n);
  }

  /**
   From any visible anchor, `n` rounds deliver exactly the next `n * limit` messages in order, each once, for
   every limit and with or without the cutoff.
   */
  lemma RoundsDeliverAll(h: seq<Message>, cutoff: Option<int>, k: nat, limit: nat, n: nat, j: nat)
    requires IsHistory(h) && k < |h| && IsVisible(h[k], cutoff) && limit >= 1
    requires j == Reached(h, k, limit, n)
    ensures k <= j < |h| && Rounds(Answer(h, cutoff, limit), h[k].id, n) == (h[k + 1..j + 1], h[j].id)
  {
    PositionIsReached(h, k, limit, n);
    RoundsFromAnchor(h, cutoff, k, limit, n, j);
  }

  /**
   The repetition ends: after as many rounds as there are messages everything later than the anchor is
   delivered, and the next answer says up to date; no earlier answer does.
   */
  lemma SyncTerminates(h: seq<Message>, cutoff: Option<int>, k: nat, limit: nat, n: nat)
    requires IsHistory(h) && k < |h| && IsVisible(h[k], cutoff) && limit >= 1
    ensures var (got, last) := Rounds(Answer(h, cutoff, limit), h[k].id, n);
      && (Sync(h, cutoff, Some(last), limit).upToDate <==> got == h[k + 1..])
      && (n >= |h| ==> got == h[k + 1..])
  {
    var j := Reached(h, k, limit, n);
    RoundsDeliverAll(h, cutoff, k, limit, n, j);
    LaterVisible(h, cutoff, k, j);
    SyncFromAnchor(h, cutoff, j, limit);
    EnoughRounds(h, k, limit, n);
    assert |h[k + 1..j + 1]| == j - k;
  }

  lemma EnoughRounds(h: seq<Message>, k: nat, limit: nat, n: nat)
    requires k < |h| && limit >= 1
    ensures n >= |h| ==> Reached(h, k, limit, n) == |h| - 1
  {
    assert n * limit == n + n * (limit - 1);
    assert n * (limit - 1) >= 0;
  }

  // ---------------------------------------------------------------- an anchor out of sight

  lemma BatchFromHidden(h: seq<Message>, t: int, k: nat, limit: nat)
    requires IsHistory(h) && k < |h| && h[k].createdAt < t
    ensures Batch(h, Some(t), Some(h[k].id), limit) == Oldest(After(h, t), limit)
  {
    FindByIdAt(h, k);
    assert StartAfter(h[k], Some(t)) == t;
  }

  /** Taking the oldest of two suffixes gives the same exactly when they start at the same place. */
  lemma OldestStart(h: seq<Message>, start: nat, later: nat, limit: nat)
    requires IsHistory(h) && start <= later <= |h| && start < |h| && limit >= 1
    ensures Oldest(h[later..], limit) == Oldest(h[start..], limit) <==> start == later
  {
    assert Oldest(h[start..], limit)[0] == h[start];
    if later < |h| {
      assert Oldest(h[later..], limit)[0] == h[later];
    }
  }

  /**
   From an anchor older than the driver's cutoff the first answer starts with the first visible message
   exactly when no message carries the cutoff's own stamp; one that does is passed over.
   */
  lemma HiddenAnchorSkips(h: seq<Message>, t: int, k: nat, limit: nat)
    requires IsHistory(h) && k < |h| && h[k].createdAt < t && h[|h| - 1].createdAt >= t && limit >= 1
    ensures Sync(h, Some(t), Some(h[k].id), limit).messages == Oldest(Visible(h, Some(t)), limit)
      <==> forall i | 0 <= i < |h| :: h[i].createdAt != t
  {
    LatestVisible(h, Some(t), |h| - 1);
    assert h[k].id != h[|h| - 1].id;
    BatchFromHidden(h, t, k, limit);
    NotBeforeIsAfter(h, t);
    var start := AfterIsSuffix(h, t - 1);
    var later := AfterIsSuffix(h, t);
    assert start <= |h| - 1;
    assert start <= later by {
      if later < |h| {
        assert h[later].createdAt > t;
      }
    }
    OldestStart(h, start, later, limit);
    StampBetween(h, t, start, later);
  }

  lemma StampBetween(h: seq<Message>, t: int, start: nat, later: nat)
    requires IsHistory(h) && start <= later <= |h|
    requires forall i | 0 <= i < |h| :: h[i].createdAt > t - 1 <==> start <= i
    requires forall i | 0 <= i < |h| :: h[i].createdAt > t <==> later <= i
    ensures start == later <==> forall i | 0 <= i < |h| :: h[i].createdAt != t
  {
    if start < later {
      assert h[start].createdAt == t;
    }
  }
}
