/**
 Any number of concurrent and repeated sends carrying a client message id: the look-up before the insert, the
 insert with its unique constraint, and the look-up after a violation are separate steps of each call.
 */
module IdempotentSend {
  import opened Options

  type UserId = string
  type RoomId = string
  type CallId = nat
  type MessageId = nat

  datatype Key = Key(room: RoomId, sender: UserId, clientId: Option<string>)

  /** A stored message; its id is its position. `insertedBy` is the call that stored it. */
  datatype Row = Row(key: Key, insertedBy: CallId)

  datatype Cause = Collision | OtherFailure

  datatype Call =
    | Begun(key: Key)
    | LookedUp(key: Key)
    | Violated(key: Key)
    | Answered(key: Key, id: MessageId, replay: bool)
    | Threw(key: Key, cause: Cause)

  datatype System = System(rows: seq<Row>, unread: map<(RoomId, UserId), int>, calls: map<CallId, Call>)

  datatype Action =
    | Begin(call: CallId, key: Key)
    | FastPath(call: CallId)
    | Insert(call: CallId)
    | InsertFails(call: CallId)
    | LookUpAgain(call: CallId)

  // ---------------------------------------------------------------- steps

  /** The first row of this room, sender and client id. */
  function Find(rows: seq<Row>, key: Key): (r: Option<MessageId>)
    ensures r.Some? ==> r.value < |rows| && rows[r.value].key == key
    ensures r.None? ==> forall i | 0 <= i < |rows| :: rows[i].key != key
  {
    if rows == [] then None
    else if rows[0].key == key then Some(0)
    else match Find(rows[1..], key)
      case None => None
      case Some(i) => Some(i + 1)
  }

  /** The database constraint is on room and client id; the sender is not part of it. */
  predicate Clashes(a: Key, b: Key) {
    a.clientId.Some? && a.room == b.room && a.clientId == b.clientId
  }

  predicate Taken(rows: seq<Row>, key: Key) {
    exists i | 0 <= i < |rows| :: Clashes(key, rows[i].key)
  }

  function AfterFastPath(s: System, c: CallId): System
    requires c in s.calls && s.calls[c].Begun?
  {
    var key := s.calls[c].key;
    var found := if key.clientId.Some? then Find(s.rows, key) else None;
    s.(calls := s.calls[c := if found.Some? then Answered(key, found.value, true) else LookedUp(key)])
  }

  /** The message and everybody else's counter, in one transaction, unless the constraint refuses. */
  function AfterInsert(s: System, c: CallId): System
    requires c in s.calls && s.calls[c].LookedUp?
  {
    var key := s.calls[c].key;
    if Taken(s.rows, key) then s.(calls := s.calls[c := Violated(key)])
    else
      s.(rows := s.rows + [Row(key, c)],
         unread := map k | k in s.unread ::
           if k.0 == key.room && k.1 != key.sender then s.unread[k] + 1 else s.unread[k],
         calls := s.calls[c := Answered(key, |s.rows|, false)])
  }

  function AfterLookUpAgain(s: System, c: CallId): System
    requires c in s.calls && s.calls[c].Violated?
  {
    var key := s.calls[c].key;
    var found := Find(s.rows, key);
    s.(calls := s.calls[c := if found.Some? then Answered(key, found.value, true) else Threw(key, Collision)])
  }

  predicate Allowed(s: System, a: Action) {
    match a
    case Begin(c, _) => c !in s.calls
    case FastPath(c) => c in s.calls && s.calls[c].Begun?
    case Insert(c) => c in s.calls && s.calls[c].LookedUp?
    case InsertFails(c) => c in s.calls && s.calls[c].LookedUp?
    case LookUpAgain(c) => c in s.calls && s.calls[c].Violated?
  }

  function Do(s: System, a: Action): System
    requires Allowed(s, a)
  {
    match a
    case Begin(c, key) => s.(calls := s.calls[c := Begun(key)])
    case FastPath(c) => AfterFastPath(s, c)
    case Insert(c) => AfterInsert(s, c)
    case InsertFails(c) => s.(calls := s.calls[c := Threw(s.calls[c].key, OtherFailure)])
    case LookUpAgain(c) => AfterLookUpAgain(s, c)
  }

  predicate Possible(s: System, actions: seq<Action>)
    decreases |actions|
  {
    actions == [] || (Allowed(s, actions[0]) && Possible(Do(s, actions[0]), actions[1..]))
  }

  function DoAll(s: System, actions: seq<Action>): System
    requires Possible(s, actions)
    decreases |actions|
  {
    if actions == [] then s else DoAll(Do(s, actions[0]), actions[1..])
  }

  predicate Initial(s: System) {
    s.rows == [] && s.calls == map[] && forall k | k in s.unread :: s.unread[k] == 0
  }

  // ---------------------------------------------------------------- the invariant

  /** Messages of the room that `u` did not send. */
  function FromOthers(rows: seq<Row>, r: RoomId, u: UserId): nat {
    if rows == [] then 0
    else
      var last := rows[|rows| - 1].key;
      FromOthers(rows[..|rows| - 1], r, u) + if last.room == r && last.sender != u then 1 else 0
  }

  predicate RowsOk(s: System) {
    && (forall i, j | 0 <= i < j < |s.rows| :: !Clashes(s.rows[i].key, s.rows[j].key))
    && (forall i, j | 0 <= i < j < |s.rows| :: s.rows[i].insertedBy != s.rows[j].insertedBy)
    && (forall i | 0 <= i < |s.rows| ::
          s.rows[i].insertedBy in s.calls && s.calls[s.rows[i].insertedBy] == Answered(s.rows[i].key, i, false))
  }

  predicate CallOk(s: System, c: CallId, call: Call) {
    match call
    case Answered(key, id, replay) => id < |s.rows| && s.rows[id].key == key && (!replay ==> s.rows[id].insertedBy == c)
    case Violated(key) => Taken(s.rows, key)
    case Threw(key, Collision) => exists i | 0 <= i < |s.rows| :: Clashes(key, s.rows[i].key) && s.rows[i].key.sender != key.sender
    case _ => true
  }

  predicate SysInv(s: System) {
    && RowsOk(s)
    && (forall c | c in s.calls :: CallOk(s, c, s.calls[c]))
    && (forall k | k in s.unread :: s.unread[k] == FromOthers(s.rows, k.0, k.1))
  }

  /** A step that moves one unfinished call and stores nothing. */
  lemma MoveKeeps(s: System, c: CallId, call: Call)
    requires SysInv(s) && (c in s.calls ==> !s.calls[c].Answered?) && CallOk(s, c, call)
    ensures SysInv(s.(calls := s.calls[c := call]))
  {
    var t := s.(calls := s.calls[c := call]);
    forall d | d in t.calls ensures CallOk(t, d, t.calls[d]) {
      assert d != c ==> CallOk(s, d, s.calls[d]);
    }
  }

  lemma InsertKeeps(s: System, c: CallId)
    requires SysInv(s) && c in s.calls && s.calls[c].LookedUp? && !Taken(s.rows, s.calls[c].key)
    ensures SysInv(AfterInsert(s, c))
  {
    var t := AfterInsert(s, c);
    var n := |s.rows|;
    assert forall i | 0 <= i < n :: t.rows[i] == s.rows[i];
    forall i, j | 0 <= i < j < |t.rows| ensures !Clashes(t.rows[i].key, t.rows[j].key) {
      if j == n {
        assert !Clashes(s.calls[c].key, s.rows[i].key);
      }
    }
    forall d | d in t.calls ensures CallOk(t, d, t.calls[d]) {
      if d != c {
        assert CallOk(s, d, s.calls[d]);
        if s.calls[d].Violated? {
          var i :| 0 <= i < n && Clashes(s.calls[d].key, s.rows[i].key);
          assert Clashes(s.calls[d].key, t.rows[i].key);
        }
        if s.calls[d].Threw? && s.calls[d].cause == Collision {
          var i :| 0 <= i < n && Clashes(s.calls[d].key, s.rows[i].key) && s.rows[i].key.sender != s.calls[d].key.sender;
          assert Clashes(s.calls[d].key, t.rows[i].key) && t.rows[i].key.sender != s.calls[d].key.sender;
        }
      }
    }
    assert t.rows[..n] == s.rows;
  }

  lemma LookUpAgainKeeps(s: System, c: CallId)
    requires SysInv(s) && c in s.calls && s.calls[c].Violated?
    ensures SysInv(AfterLookUpAgain(s, c))
  {
    var key := s.calls[c].key;
    var found := Find(s.rows, key);
    assert CallOk(s, c, s.calls[c]);
    var i :| 0 <= i < |s.rows| && Clashes(key, s.rows[i].key);
    if found.None? {
      // The row that clashes is not ours, and only the sender can differ.
      assert s.rows[i].key != key;
      assert s.rows[i].key.sender != key.sender;
      MoveKeeps(s, c, Threw(key, Collision));
    } else {
      MoveKeeps(s, c, Answered(key, found.value, true));
    }
  }

  lemma StepKeeps(s: System, a: Action)
    requires SysInv(s) && Allowed(s, a)
    ensures SysInv(Do(s, a))
  {
    match a
    case Begin(c, key) => MoveKeeps(s, c, Begun(key));
    case FastPath(c) =>
      var key := s.calls[c].key;
      var found := if key.clientId.Some? then Find(s.rows, key) else None;
      MoveKeeps(s, c, if found.Some? then Answered(key, found.value, true) else LookedUp(key));
    case Insert(c) =>
      if Taken(s.rows, s.calls[c].key) {
        MoveKeeps(s, c, Violated(s.calls[c].key));
      } else {
        InsertKeeps(s, c);
      }
    case InsertFails(c) => MoveKeeps(s, c, Threw(s.calls[c].key, OtherFailure));
    case LookUpAgain(c) => LookUpAgainKeeps(s, c);
  }

  lemma {:induction false} RunKeeps(s: System, actions: seq<Action>)
    requires SysInv(s) && Possible(s, actions)
    ensures SysInv(DoAll(s, actions))
    decreases |actions|
  {
    if actions != [] {
      StepKeeps(s, actions[0]);
      RunKeeps(Do(s, actions[0]), actions[1..]);
    }
  }

  // ---------------------------------------------------------------- what a sender relies on

  /** How many stored messages carry this key. */
  function Copies(rows: seq<Row>, key: Key): nat {
    if rows == [] then 0
    else Copies(rows[..|rows| - 1], key) + if rows[|rows| - 1].key == key then 1 else 0
  }

  lemma {:induction false} AtMostOneCopy(rows: seq<Row>, key: Key)
    requires key.clientId.Some? && forall i, j | 0 <= i < j < |rows| :: !Clashes(rows[i].key, rows[j].key)
    ensures Copies(rows, key) == if Find(rows, key).Some? then 1 else 0
  {
    if rows != [] {
      var n := |rows| - 1;
      var early := rows[..n];
      AtMostOneCopy(early, key);
      assert forall i | 0 <= i < n :: early[i] == rows[i];
      if Find(early, key).Some? {
        assert !Clashes(rows[Find(early, key).value].key, rows[n].key);
        assert Find(rows, key).Some?;
      }
    }
  }

  lemma ClashPosition(rows: seq<Row>, i: nat, j: nat)
    requires forall a, b | 0 <= a < b < |rows| :: !Clashes(rows[a].key, rows[b].key)
    requires i < |rows| && j < |rows| && Clashes(rows[i].key, rows[j].key)
    ensures i == j
  {
    assert Clashes(rows[j].key, rows[i].key);
  }

  /** A client id that another sender holds is not found under this one. */
  lemma OthersHoldId(rows: seq<Row>, key: Key, i: nat)
    requires forall a, b | 0 <= a < b < |rows| :: !Clashes(rows[a].key, rows[b].key)
    requires i < |rows| && Clashes(key, rows[i].key) && rows[i].key.sender != key.sender
    ensures Find(rows, key).None?
  {
    forall j | 0 <= j < |rows| ensures rows[j].key != key {
      if j < i {
        assert !Clashes(rows[j].key, rows[i].key);
      } else if i < j {
        assert !Clashes(rows[i].key, rows[j].key);
      }
    }
  }

  /**
   However sends of one room, sender and client id are retried and raced, with any others beside them: at most
   one message carries the key, and exactly one as soon as any of them is answered; all answers name it; only
   one is not marked a replay; every counter is the number of messages from others, so this one counted once.
   */
  lemma OneMessagePerKey(s: System, actions: seq<Action>, key: Key)
    requires Initial(s) && Possible(s, actions) && key.clientId.Some?
    ensures var t := DoAll(s, actions);
      && Copies(t.rows, key) <= 1
      && (forall c | c in t.calls && t.calls[c].Answered? && t.calls[c].key == key :: Copies(t.rows, key) == 1)
      && (forall c, d | c in t.calls && d in t.calls && t.calls[c].Answered? && t.calls[d].Answered?
                        && t.calls[c].key == key && t.calls[d].key == key ::
            && t.calls[c].id == t.calls[d].id
            && (!t.calls[c].replay && !t.calls[d].replay ==> c == d))
      && (forall k | k in t.unread :: t.unread[k] == FromOthers(t.rows, k.0, k.1))
  {
    assert forall k | k in s.unread :: FromOthers([], k.0, k.1) == 0;
    RunKeeps(s, actions);
    var t := DoAll(s, actions);
    AtMostOneCopy(t.rows, key);
    AnswersAgree(t, key);
  }

  lemma AnswersAgree(t: System, key: Key)
    requires SysInv(t) && key.clientId.Some?
    ensures forall c, d | c in t.calls && d in t.calls && t.calls[c].Answered? && t.calls[d].Answered?
                          && t.calls[c].key == key && t.calls[d].key == key ::
              && t.calls[c].id == t.calls[d].id
              && (!t.calls[c].replay && !t.calls[d].replay ==> c == d)
    ensures forall c | c in t.calls && t.calls[c].Answered? && t.calls[c].key == key :: Find(t.rows, key).Some?
  {
    forall c | c in t.calls && t.calls[c].Answered? && t.calls[c].key == key
      ensures t.calls[c].id < |t.rows| && t.rows[t.calls[c].id].key == key
    {
      assert CallOk(t, c, t.calls[c]);
    }
    forall c, d | c in t.calls && d in t.calls && t.calls[c].Answered? && t.calls[d].Answered?
                  && t.calls[c].key == key && t.calls[d].key == key
      ensures t.calls[c].id == t.calls[d].id
      ensures !t.calls[c].replay && !t.calls[d].replay ==> c == d
    {
      assert CallOk(t, c, t.calls[c]) && CallOk(t, d, t.calls[d]);
      ClashPosition(t.rows, t.calls[c].id, t.calls[d].id);
    }
  }

  /**
   A send ends in a collision error exactly because another sender of the room holds the client id; then no
   message of this key exists.
   */
  lemma CollisionExactlyWhen(s: System, actions: seq<Action>, c: CallId)
    requires Initial(s) && Possible(s, actions)
    requires var t := DoAll(s, actions); c in t.calls && t.calls[c].Violated?
    ensures var t := DoAll(s, actions); var key := t.calls[c].key; var u := Do(t, LookUpAgain(c));
      && (u.calls[c] == Threw(key, Collision) <==>
            exists i | 0 <= i < |t.rows| :: Clashes(key, t.rows[i].key) && t.rows[i].key.sender != key.sender)
      && (u.calls[c] == Threw(key, Collision) ==> Copies(t.rows, key) == 0)
  {
    RunKeeps(s, actions);
    var t := DoAll(s, actions);
    var key := t.calls[c].key;
    LookUpAgainKeeps(t, c);
    var u := Do(t, LookUpAgain(c));
    assert CallOk(t, c, t.calls[c]);
    AtMostOneCopy(t.rows, key);
    if i :| 0 <= i < |t.rows| && Clashes(key, t.rows[i].key) && t.rows[i].key.sender != key.sender {
      OthersHoldId(t.rows, key, i);
    }
    assert CallOk(u, c, u.calls[c]);
  }

  // ---------------------------------------------------------------- the collision happens

  lemma {:induction false} DoAppend(s: System, actions: seq<Action>, a: Action)
    requires Possible(s, actions) && Allowed(DoAll(s, actions), a)
    ensures Possible(s, actions + [a]) && DoAll(s, actions + [a]) == Do(DoAll(s, actions), a)
    decreases |actions|
  {
    if actions == [] {
      assert (actions + [a])[1..] == [];
    } else {
      assert (actions + [a])[1..] == actions[1..] + [a];
      DoAppend(Do(s, actions[0]), actions[1..], a);
    }
  }

  function PlainSend(c: CallId, k: Key): seq<Action> {
    [Begin(c, k), FastPath(c), Insert(c)]
  }

  function TwoSenders(c: CallId, k: Key, d: CallId, m: Key): seq<Action> {
    PlainSend(c, k) + PlainSend(d, m) + [LookUpAgain(d)]
  }

  lemma {:induction false} DoConcat(s: System, first: seq<Action>, second: seq<Action>)
    requires Possible(s, first) && Possible(DoAll(s, first), second)
    ensures Possible(s, first + second) && DoAll(s, first + second) == DoAll(DoAll(s, first), second)
    decreases |first|
  {
    if first == [] {
      assert first + second == second;
    } else {
      assert (first + second)[1..] == first[1..] + second;
      DoConcat(Do(s, first[0]), first[1..], second);
    }
  }

  /** A send whose key is not stored looks up in vain and then inserts. */
  lemma PlainSendInserts(s: System, c: CallId, k: Key)
    requires c !in s.calls && Find(s.rows, k).None?
    ensures Possible(s, PlainSend(c, k))
    ensures var t := DoAll(s, PlainSend(c, k));
      if Taken(s.rows, k) then t == s.(calls := s.calls[c := Violated(k)])
      else t.rows == s.rows + [Row(k, c)] && t.calls == s.calls[c := Answered(k, |s.rows|, false)]
  {
    var all := PlainSend(c, k);
    DoAppend(s, [], all[0]);
    DoAppend(s, [] + [all[0]], all[1]);
    DoAppend(s, [] + [all[0]] + [all[1]], all[2]);
    assert all == [] + [all[0]] + [all[1]] + [all[2]];
    var t := DoAll(s, all);
    assert Taken(s.rows, k) ==> t.calls == s.calls[c := Violated(k)];
  }

  /**
   In any room and for any client id, two senders who use it after each other make the second send fail: the
   message of the first is stored and the second is lost to its sender.
   */
  lemma SecondSenderCollides(s: System, c: CallId, k: Key, d: CallId, m: Key)
    requires Initial(s) && c != d && k.clientId.Some? && k.room == m.room && k.clientId == m.clientId && k.sender != m.sender
    ensures var actions := TwoSenders(c, k, d, m);
      && Possible(s, actions)
      && var t := DoAll(s, actions);
         && c in t.calls && d in t.calls
         && t.calls[c] == Answered(k, 0, false) && t.calls[d] == Threw(m, Collision)
         && t.rows == [Row(k, c)] && Copies(t.rows, m) == 0
  {
    PlainSendInserts(s, c, k);
    var s1 := DoAll(s, PlainSend(c, k));
    assert s1.rows == [Row(k, c)] && Clashes(m, s1.rows[0].key);
    PlainSendInserts(s1, d, m);
    DoConcat(s, PlainSend(c, k), PlainSend(d, m));
    var s2 := DoAll(s1, PlainSend(d, m));
    DoAppend(s, PlainSend(c, k) + PlainSend(d, m), LookUpAgain(d));
    assert Copies([Row(k, c)], m) == 0;
  }
}
