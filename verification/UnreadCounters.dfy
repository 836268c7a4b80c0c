/**
 Read state of chat messages and the cached unread counters of the participants: what each operation does to
 both, and when the cache equals what it caches.
 */
module UnreadCounters {
  import opened Options

  type UserId = string
  type RoomId = string
  type MessageId = nat
  type MemberKey = (RoomId, UserId)

  datatype RoomType = DirectRoom | OfferRoom | OtherRoom

  /** `readBy` is null on rows restored from the archive. */
  datatype Message = Message(room: RoomId, sender: UserId, createdAt: int, readBy: Option<seq<UserId>>, isRead: bool)

  datatype Member = Member(joinedAt: int, isDriver: bool, unreadCount: int)

  datatype Chat = Chat(rooms: map<RoomId, RoomType>, members: map<MemberKey, Member>, messages: map<MessageId, Message>)

  datatype Reply =
    | Ok | NotFound | NotParticipant | OwnMessage | NoPermission | Empty | AlreadyDeleted | ParticipantRowMissing

  // ---------------------------------------------------------------- what is cached

  function Readers(m: Message): seq<UserId> {
    if m.readBy.Some? then m.readBy.value else []
  }

  predicate UnreadFor(m: Message, r: RoomId, u: UserId) {
    m.room == r && m.sender != u && u !in Readers(m)
  }

  function Unread(c: Chat, r: RoomId, u: UserId): set<MessageId> {
    set id | id in c.messages && UnreadFor(c.messages[id], r, u)
  }

  predicate ExactFor(c: Chat, k: MemberKey) {
    k in c.members ==> c.members[k].unreadCount == |Unread(c, k.0, k.1)|
  }

  predicate Exact(c: Chat) {
    forall k | k in c.members :: ExactFor(c, k)
  }

  /** Drivers only mark messages since they joined; here that is all of the room's messages. */
  predicate JoinedBefore(c: Chat) {
    forall k, id | k in c.members && id in c.messages && c.members[k].isDriver && c.messages[id].room == k.0 ::
      c.members[k].joinedAt <= c.messages[id].createdAt
  }

  // ---------------------------------------------------------------- operations

  function AddUnread(c: Chat, r: RoomId, sender: UserId): Chat {
    c.(members := map k | k in c.members ::
      if k.0 == r && k.1 != sender then c.members[k].(unreadCount := c.members[k].unreadCount + 1) else c.members[k])
  }

  /** The access check uses the caller's list of participants when it brings one. */
  predicate MaySend(c: Chat, r: RoomId, sender: UserId, checked: Option<set<UserId>>) {
    match checked
    case Some(ids) => sender in ids
    case None => (r, sender) in c.members
  }

  function Sent(c: Chat, id: MessageId, r: RoomId, sender: UserId, createdAt: int): Chat {
    AddUnread(c, r, sender).(messages := c.messages[id := Message(r, sender, createdAt, Some([sender]), false)])
  }

  function Dispatched(c: Chat, id: MessageId, r: RoomId, system: UserId, createdAt: int): Chat {
    AddUnread(c, r, system).(messages := c.messages[id := Message(r, system, createdAt, Some([]), false)])
  }

  function Decrement(c: Chat, k: MemberKey): Chat {
    if k in c.members then
      var n := c.members[k].unreadCount - 1;
      c.(members := c.members[k := c.members[k].(unreadCount := if n > 0 then n else 0)])
    else c
  }

  function ReadOne(c: Chat, id: MessageId, u: UserId): Chat {
    if id !in c.messages || c.messages[id].sender == u || u in Readers(c.messages[id]) then c
    else
      var m := c.messages[id];
      Decrement(c.(messages := c.messages[id := m.(isRead := true, readBy := Some(Readers(m) + [u]))]), (m.room, u))
  }

  function Without(readers: seq<UserId>, u: UserId): (rest: seq<UserId>)
    ensures u !in rest
    ensures forall w | w != u :: w in rest <==> w in readers
  {
    if readers == [] then []
    else if readers[0] == u then Without(readers[1..], u)
    else [readers[0]] + Without(readers[1..], u)
  }

  function UnreadOneError(c: Chat, id: MessageId, u: UserId): Option<Reply> {
    if id !in c.messages then Some(NotFound)
    else if c.messages[id].sender == u then Some(OwnMessage)
    else if c.messages[id].room !in c.rooms then Some(NotFound)
    else None
  }

  /** In direct and offer rooms the message also becomes globally unread. */
  function MarkedUnread(m: Message, kind: RoomType, u: UserId): Message {
    m.(isRead := if kind == OtherRoom then m.isRead else false, readBy := Some(Without(Readers(m), u)))
  }

  function UnreadOne(c: Chat, id: MessageId, u: UserId): (Chat, Reply) {
    match UnreadOneError(c, id, u)
    case Some(e) => (c, e)
    case None =>
      var m := c.messages[id];
      if u !in Readers(m) then (c, Ok)
      else
        var d := c.(messages := c.messages[id := MarkedUnread(m, c.rooms[m.room], u)]);
        var k := (m.room, u);
        if k in c.members
        then (d.(members := d.members[k := d.members[k].(unreadCount := d.members[k].unreadCount + 1)]), Ok)
        else (d, ParticipantRowMissing)
  }

  /** The one UPDATE statement of a room-wide read: which rows it takes. */
  predicate TakenByRead(m: Message, r: RoomId, u: UserId, cutoff: Option<int>, excludeOwn: bool) {
    && m.room == r
    && u !in Readers(m)
    && (excludeOwn ==> m.sender != u)
    && (cutoff.Some? ==> m.createdAt >= cutoff.value)
  }

  function CutoffOf(member: Member): Option<int> {
    if member.isDriver then Some(member.joinedAt) else None
  }

  function ReadRoom(c: Chat, r: RoomId, u: UserId, excludeOwn: bool): Chat {
    var k := (r, u);
    if k !in c.members then c
    else
      var cutoff := CutoffOf(c.members[k]);
      c.(messages := map id | id in c.messages ::
           var m := c.messages[id];
           if TakenByRead(m, r, u, cutoff, excludeOwn) then m.(isRead := true, readBy := Some(Readers(m) + [u])) else m,
         members := c.members[k := c.members[k].(unreadCount := 0)])
  }

  function ReadRooms(c: Chat, rs: seq<RoomId>, u: UserId): Chat {
    if rs == [] then c else ReadRoom(ReadRooms(c, rs[..|rs| - 1], u), rs[|rs| - 1], u, false)
  }

  /** One off the counter of each of `users` who has not read `m`. */
  function Uncounted(c: Chat, m: Message, users: set<UserId>): Chat {
    c.(members := map k | k in c.members ::
      if k.1 in users && UnreadFor(m, k.0, k.1) then Decrement(c, k).members[k] else c.members[k])
  }

  /** Deleting takes one off the counter of every participant who had not read the message. */
  function Deleted(c: Chat, id: MessageId): Chat {
    if id !in c.messages then c
    else Uncounted(c, c.messages[id], set k | k in c.members :: k.1).(messages := c.messages - {id})
  }

  function Elements(users: seq<UserId>): set<UserId> {
    set u | u in users
  }

  lemma ElementsNext(users: seq<UserId>, i: nat)
    requires i < |users| && forall j, k :: 0 <= j < k < |users| ==> users[j] != users[k]
    ensures Elements(users[..i + 1]) == Elements(users[..i]) + {users[i]} && users[i] !in Elements(users[..i])
  {
    assert users[..i + 1] == users[..i] + [users[i]];
  }

  lemma UncountedNone(c: Chat, m: Message)
    ensures Uncounted(c, m, {}) == c
  {
    assert Uncounted(c, m, {}).members == c.members;
  }

  lemma UncountedNext(c: Chat, m: Message, users: set<UserId>, u: UserId)
    requires u !in users && (m.room, u) in c.members
    ensures Uncounted(c, m, users + {u}) ==
      if UnreadFor(m, m.room, u) then Decrement(Uncounted(c, m, users), (m.room, u)) else Uncounted(c, m, users)
  {
    var more, step := Uncounted(c, m, users + {u}), Uncounted(c, m, users);
    var next := if UnreadFor(m, m.room, u) then Decrement(step, (m.room, u)) else step;
    assert step.members[(m.room, u)] == c.members[(m.room, u)];
    forall k | k in c.members ensures more.members[k] == next.members[k] {
      if k != (m.room, u) {
        assert next.members[k] == step.members[k];
        assert UnreadFor(m, k.0, k.1) ==> k.0 == m.room && k.1 != u;
      }
    }
    assert more.members == next.members;
  }

  /** A user joins a room with nothing counted as unread. */
  function Joined(c: Chat, r: RoomId, u: UserId, isDriver: bool, joinedAt: int): Chat {
    if (r, u) in c.members then c else c.(members := c.members[(r, u) := Member(joinedAt, isDriver, 0)])
  }

  /** The archive takes messages out of the table and leaves the counters alone. */
  function ArchivedAway(c: Chat, ids: set<MessageId>): Chat {
    c.(messages := c.messages - ids)
  }

  // ---------------------------------------------------------------- each operation keeps the cache exact

  predicate Good(c: Chat) {
    Exact(c) && JoinedBefore(c)
  }

  predicate AfterJoins(c: Chat, r: RoomId, createdAt: int) {
    forall k | k in c.members && k.0 == r && c.members[k].isDriver :: c.members[k].joinedAt <= createdAt
  }

  /** One more message is one more unread for all but its sender. */
  lemma AddedUnread(c: Chat, d: Chat, id: MessageId, m: Message, k: MemberKey)
    requires id !in c.messages && d.messages == c.messages[id := m]
    requires forall w | w in Readers(m) :: w == m.sender
    ensures Unread(d, k.0, k.1) == Unread(c, k.0, k.1) + if k.0 == m.room && k.1 != m.sender then {id} else {}
    ensures id !in Unread(c, k.0, k.1)
  {
  }

  lemma AddedMessage(c: Chat, d: Chat, id: MessageId, m: Message)
    requires Good(c) && id !in c.messages && AfterJoins(c, m.room, m.createdAt)
    requires forall w | w in Readers(m) :: w == m.sender
    requires d == AddUnread(c, m.room, m.sender).(messages := c.messages[id := m])
    ensures Good(d)
  {
    forall k | k in d.members ensures ExactFor(d, k) {
      assert ExactFor(c, k);
      AddedUnread(c, d, id, m, k);
    }
  }

  lemma ExactAfterReadOne(c: Chat, id: MessageId, u: UserId)
    requires Good(c)
    ensures Good(ReadOne(c, id, u))
  {
    var d := ReadOne(c, id, u);
    if d != c {
      var m := c.messages[id];
      forall k | k in d.members ensures ExactFor(d, k) {
        assert ExactFor(c, k);
        if k == (m.room, u) {
          assert Unread(d, k.0, k.1) == Unread(c, k.0, k.1) - {id};
          assert id in Unread(c, k.0, k.1);
        } else {
          assert Unread(d, k.0, k.1) == Unread(c, k.0, k.1);
        }
      }
    }
  }

  lemma ExactAfterUnreadOne(c: Chat, id: MessageId, u: UserId)
    requires Good(c)
    ensures Good(UnreadOne(c, id, u).0)
  {
    var d := UnreadOne(c, id, u).0;
    if d != c {
      var m := c.messages[id];
      forall k | k in d.members ensures ExactFor(d, k) {
        assert ExactFor(c, k);
        if k == (m.room, u) {
          assert Unread(d, k.0, k.1) == Unread(c, k.0, k.1) + {id};
          assert id !in Unread(c, k.0, k.1);
        } else {
          assert Unread(d, k.0, k.1) == Unread(c, k.0, k.1);
        }
      }
    }
  }

  lemma ExactAfterReadRoom(c: Chat, r: RoomId, u: UserId, excludeOwn: bool)
    requires Good(c)
    ensures Good(ReadRoom(c, r, u, excludeOwn))
  {
    var d := ReadRoom(c, r, u, excludeOwn);
    if (r, u) in c.members {
      forall k | k in d.members ensures ExactFor(d, k) {
        assert ExactFor(c, k);
        if k == (r, u) {
          assert Unread(d, r, u) == {};
        } else {
          assert Unread(d, k.0, k.1) == Unread(c, k.0, k.1);
        }
      }
    }
  }

  lemma {:induction false} ExactAfterReadRooms(c: Chat, rs: seq<RoomId>, u: UserId)
    requires Good(c)
    ensures Good(ReadRooms(c, rs, u))
  {
    if rs != [] {
      ExactAfterReadRooms(c, rs[..|rs| - 1], u);
      ExactAfterReadRoom(ReadRooms(c, rs[..|rs| - 1], u), rs[|rs| - 1], u, false);
    }
  }

  lemma ExactAfterDelete(c: Chat, id: MessageId)
    requires Good(c)
    ensures Good(Deleted(c, id))
  {
    var d := Deleted(c, id);
    if id in c.messages {
      forall k | k in d.members ensures ExactFor(d, k) {
        assert ExactFor(c, k);
        if UnreadFor(c.messages[id], k.0, k.1) {
          assert Unread(d, k.0, k.1) == Unread(c, k.0, k.1) - {id};
          assert id in Unread(c, k.0, k.1);
        } else {
          assert Unread(d, k.0, k.1) == Unread(c, k.0, k.1);
        }
      }
    }
  }

  // ---------------------------------------------------------------- runs

  datatype Op =
    | OpSend(id: MessageId, room: RoomId, sender: UserId, checked: Option<set<UserId>>, createdAt: int)
    | OpDispatch(id: MessageId, room: RoomId, system: UserId, createdAt: int)
    | OpReadOne(id: MessageId, user: UserId)
    | OpUnreadOne(id: MessageId, user: UserId)
    | OpReadRoom(room: RoomId, user: UserId)
    | OpReadRooms(rooms: seq<RoomId>, user: UserId)
    | OpDelete(id: MessageId, permitted: bool)
    | OpJoin(room: RoomId, user: UserId, isDriver: bool, joinedAt: int)

  function Apply(c: Chat, op: Op): Chat {
    match op
    case OpSend(id, r, sender, checked, at) => if MaySend(c, r, sender, checked) then Sent(c, id, r, sender, at) else c
    case OpDispatch(id, r, system, at) => Dispatched(c, id, r, system, at)
    case OpReadOne(id, u) => ReadOne(c, id, u)
    case OpUnreadOne(id, u) => UnreadOne(c, id, u).0
    case OpReadRoom(r, u) => ReadRoom(c, r, u, true)
    case OpReadRooms(rs, u) => ReadRooms(c, rs, u)
    case OpDelete(id, permitted) => if permitted then Deleted(c, id) else c
    case OpJoin(r, u, isDriver, at) => Joined(c, r, u, isDriver, at)
  }

  /** Ids are new, messages are not dated before their room's drivers joined, and users join only empty rooms. */
  predicate Orderly(c: Chat, op: Op) {
    match op
    case OpSend(id, r, _, _, at) => id !in c.messages && AfterJoins(c, r, at)
    case OpDispatch(id, r, _, at) => id !in c.messages && AfterJoins(c, r, at)
    case OpJoin(r, _, _, _) => forall id | id in c.messages :: c.messages[id].room != r
    case _ => true
  }

  predicate OrderlyRun(c: Chat, ops: seq<Op>)
    decreases |ops|
  {
    ops == [] || (Orderly(c, ops[0]) && OrderlyRun(Apply(c, ops[0]), ops[1..]))
  }

  function ApplyAll(c: Chat, ops: seq<Op>): Chat
    decreases |ops|
  {
    if ops == [] then c else ApplyAll(Apply(c, ops[0]), ops[1..])
  }

  lemma ExactAfter(c: Chat, op: Op)
    requires Good(c) && Orderly(c, op)
    ensures Good(Apply(c, op))
  {
    match op
    case OpSend(id, r, sender, checked, at) =>
      AddedMessage(c, Sent(c, id, r, sender, at), id, Message(r, sender, at, Some([sender]), false));
    case OpDispatch(id, r, system, at) =>
      AddedMessage(c, Dispatched(c, id, r, system, at), id, Message(r, system, at, Some([]), false));
    case OpReadOne(id, u) => ExactAfterReadOne(c, id, u);
    case OpUnreadOne(id, u) => ExactAfterUnreadOne(c, id, u);
    case OpReadRoom(r, u) => ExactAfterReadRoom(c, r, u, true);
    case OpReadRooms(rs, u) => ExactAfterReadRooms(c, rs, u);
    case OpDelete(id, permitted) => ExactAfterDelete(c, id);
    case OpJoin(r, u, isDriver, at) => ExactAfterEarlyJoin(c, r, u, isDriver, at);
  }

  lemma ExactAfterEarlyJoin(c: Chat, r: RoomId, u: UserId, isDriver: bool, at: int)
    requires Good(c) && forall id | id in c.messages :: c.messages[id].room != r
    ensures Good(Joined(c, r, u, isDriver, at))
  {
    var d := Joined(c, r, u, isDriver, at);
    forall k | k in d.members ensures ExactFor(d, k) {
      assert Unread(d, k.0, k.1) == Unread(c, k.0, k.1);
      if k == (r, u) && k !in c.members {
        assert Unread(c, r, u) == {};
      } else {
        assert ExactFor(c, k);
      }
    }
  }

  /** In every orderly run, from nothing, every participant's counter is the number of their unread messages. */
  lemma {:induction false} ExactInEveryRun(c: Chat, ops: seq<Op>)
    requires Good(c) && OrderlyRun(c, ops)
    ensures Good(ApplyAll(c, ops))
    decreases |ops|
  {
    if ops != [] {
      ExactAfter(c, ops[0]);
      ExactInEveryRun(Apply(c, ops[0]), ops[1..]);
    }
  }

  lemma EmptyIsExact(rooms: map<RoomId, RoomType>)
    ensures Good(Chat(rooms, map[], map[]))
  {
  }

  // ---------------------------------------------------------------- the clamp

  /** While the cache is exact, reading takes exactly one off and never meets the floor. */
  lemma ReadTakesOne(c: Chat, id: MessageId, u: UserId)
    requires Good(c) && id in c.messages && UnreadFor(c.messages[id], c.messages[id].room, u)
    requires (c.messages[id].room, u) in c.members
    ensures var k := (c.messages[id].room, u);
      0 <= ReadOne(c, id, u).members[k].unreadCount == c.members[k].unreadCount - 1
  {
    var k := (c.messages[id].room, u);
    assert ExactFor(c, k) && id in Unread(c, k.0, k.1);
  }

  lemma DeleteTakesOne(c: Chat, id: MessageId, k: MemberKey)
    requires Good(c) && id in c.messages && k in c.members
    ensures Deleted(c, id).members[k].unreadCount
      == c.members[k].unreadCount - (if UnreadFor(c.messages[id], k.0, k.1) then 1 else 0)
  {
    assert ExactFor(c, k);
    if UnreadFor(c.messages[id], k.0, k.1) {
      assert id in Unread(c, k.0, k.1);
    }
  }

  // ---------------------------------------------------------------- what makes the cache drift

  /** A join leaves the cache exact exactly when the room holds nothing unread for the newcomer. */
  lemma JoinExactWhen(c: Chat, r: RoomId, u: UserId, isDriver: bool, at: int)
    requires Exact(c) && (r, u) !in c.members
    ensures Exact(Joined(c, r, u, isDriver, at)) <==> Unread(c, r, u) == {}
  {
    var d := Joined(c, r, u, isDriver, at);
    assert forall k | k in d.members :: Unread(d, k.0, k.1) == Unread(c, k.0, k.1);
    forall k | k in c.members ensures ExactFor(d, k) {
      assert ExactFor(c, k);
    }
    assert ExactFor(d, (r, u)) <==> Unread(c, r, u) == {};
  }

  /** Archiving leaves the cache exact exactly when no participant has one of the messages unread. */
  lemma ArchiveExactWhen(c: Chat, ids: set<MessageId>)
    requires Exact(c)
    ensures Exact(ArchivedAway(c, ids)) <==> forall k | k in c.members :: Unread(c, k.0, k.1) !! ids
  {
    var d := ArchivedAway(c, ids);
    forall k | k in c.members ensures ExactFor(d, k) <==> Unread(c, k.0, k.1) !! ids {
      assert ExactFor(c, k);
      var was, now := Unread(c, k.0, k.1), Unread(d, k.0, k.1);
      assert now == was - ids;
      assert was == now + was * ids;
      assert |was| == |now| + |was * ids|;
      assert was * ids == {} <==> was !! ids;
    }
    assert forall k | k in d.members :: k in c.members;
  }

  /** A driver's room-wide read leaves the counter exact exactly when nothing older than the join is unread. */
  lemma LateReadExactWhen(c: Chat, r: RoomId, u: UserId, excludeOwn: bool)
    requires Exact(c) && (r, u) in c.members
    ensures ExactFor(ReadRoom(c, r, u, excludeOwn), (r, u)) <==>
      forall id | id in Unread(c, r, u) :: c.members[(r, u)].isDriver ==> c.members[(r, u)].joinedAt <= c.messages[id].createdAt
  {
    var d := ReadRoom(c, r, u, excludeOwn);
    var member := c.members[(r, u)];
    assert Unread(d, r, u) == set id | id in Unread(c, r, u) && member.isDriver && c.messages[id].createdAt < member.joinedAt;
    if forall id | id in Unread(c, r, u) :: member.isDriver ==> member.joinedAt <= c.messages[id].createdAt {
      assert Unread(d, r, u) == {};
    } else {
      var id :| id in Unread(c, r, u) && member.isDriver && c.messages[id].createdAt < member.joinedAt;
      assert id in Unread(d, r, u);
    }
  }

  // ---------------------------------------------------------------- overlapping reads of one message

  /** A read that looked when `seen` were the readers: it writes those and its user, and counts down. */
  function StaleRead(c: Chat, id: MessageId, u: UserId, seen: seq<UserId>): Chat {
    if id !in c.messages then c
    else
      var m := c.messages[id];
      Decrement(c.(messages := c.messages[id := m.(isRead := true, readBy := Some(seen + [u]))]), (m.room, u))
  }

  /** Everybody but the reader who takes part in the room finds themselves among the readers as before. */
  predicate SameOthers(c: Chat, m: Message, u: UserId, seen: seq<UserId>) {
    forall k | k in c.members && k.0 == m.room && k.1 != u && k.1 != m.sender :: k.1 in seen <==> k.1 in Readers(m)
  }

  lemma StaleUnread(c: Chat, id: MessageId, u: UserId, seen: seq<UserId>, k: MemberKey)
    requires id in c.messages && c.messages[id].sender != u
    ensures var was, after := Unread(c, k.0, k.1), Unread(StaleRead(c, id, u, seen), k.0, k.1); var m := c.messages[id];
      after == if k.0 == m.room && k.1 != m.sender && k.1 != u && k.1 !in seen then was + {id} else was - {id}
  {
    var m, d := c.messages[id], StaleRead(c, id, u, seen);
    assert Readers(d.messages[id]) == seen + [u];
    assert forall x | x in c.messages && x != id :: d.messages[x] == c.messages[x];
  }

  /**
   The read keeps the counters exact if and only if nobody else's read came or went between its look and its write,
   and its own user had not been counted down already, or has nothing left to count.
   */
  lemma StaleReadExactWhen(c: Chat, id: MessageId, u: UserId, seen: seq<UserId>)
    requires Exact(c) && id in c.messages && c.messages[id].sender != u
    ensures var m := c.messages[id]; var k := (m.room, u);
      Exact(StaleRead(c, id, u, seen)) <==>
        SameOthers(c, m, u, seen) && (k in c.members ==> u !in Readers(m) || c.members[k].unreadCount == 0)
  {
    var m, d := c.messages[id], StaleRead(c, id, u, seen);
    forall k | k in c.members
      ensures ExactFor(d, k) <==>
        if k == (m.room, u) then u !in Readers(m) || c.members[k].unreadCount == 0
        else k.0 == m.room && k.1 != m.sender ==> (k.1 in seen <==> k.1 in Readers(m))
    {
      assert ExactFor(c, k);
      StaleUnread(c, id, u, seen, k);
      assert id in Unread(c, k.0, k.1) <==> UnreadFor(m, k.0, k.1);
    }
    assert d.members.Keys == c.members.Keys;
  }

  /** With nothing in between it is the read of one step. */
  lemma FreshReadIsRead(c: Chat, id: MessageId, u: UserId)
    requires id in c.messages && c.messages[id].sender != u && u !in Readers(c.messages[id])
    ensures StaleRead(c, id, u, Readers(c.messages[id])) == ReadOne(c, id, u)
  {
  }

  /** Two users who look before either writes: the first one's read is lost, though counted. */
  lemma TwoReadsLoseOne(c: Chat, id: MessageId, u: UserId, w: UserId)
    requires Good(c) && id in c.messages && u != w
    requires UnreadFor(c.messages[id], c.messages[id].room, u) && UnreadFor(c.messages[id], c.messages[id].room, w)
    requires (c.messages[id].room, u) in c.members
    ensures var seen := Readers(c.messages[id]); !Exact(StaleRead(StaleRead(c, id, u, seen), id, w, seen))
  {
    var m := c.messages[id];
    var seen := Readers(m);
    FreshReadIsRead(c, id, u);
    ExactAfterReadOne(c, id, u);
    var d := StaleRead(c, id, u, seen);
    StaleReadExactWhen(d, id, w, seen);
    assert u in Readers(d.messages[id]) && u !in seen && (m.room, u) in d.members;
  }

  /** One user reading twice at once is counted twice exactly when another message is left to read. */
  lemma SameReadTwice(c: Chat, id: MessageId, u: UserId)
    requires Good(c) && id in c.messages && UnreadFor(c.messages[id], c.messages[id].room, u)
    requires (c.messages[id].room, u) in c.members
    ensures var seen := Readers(c.messages[id]);
      Exact(StaleRead(StaleRead(c, id, u, seen), id, u, seen)) <==> Unread(c, c.messages[id].room, u) == {id}
  {
    var m := c.messages[id];
    var seen := Readers(m);
    var k := (m.room, u);
    FreshReadIsRead(c, id, u);
    ExactAfterReadOne(c, id, u);
    ReadTakesOne(c, id, u);
    var d := StaleRead(c, id, u, seen);
    StaleReadExactWhen(d, id, u, seen);
    assert ExactFor(c, k);
    assert id in Unread(c, m.room, u);
    assert |Unread(c, m.room, u)| == 1 <==> Unread(c, m.room, u) == {id} by {
      assert |Unread(c, m.room, u) - {id}| == |Unread(c, m.room, u)| - 1;
    }
  }
}
