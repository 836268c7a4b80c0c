/** What each message operation does to messages and members, row by row, and when it is refused. */
module MessageEffects {
  import opened Options
  import opened UnreadCounters

  // ---------------------------------------------------------------- what stays

  predicate SameMember(p: Member, q: Member) {
    q.joinedAt == p.joinedAt && q.isDriver == p.isDriver
  }

  /** The same rows, and no more than the counters of those in `counted` have changed. */
  ghost predicate OnlyCounters(c: Chat, d: Chat, counted: set<MemberKey>) {
    && d.members.Keys == c.members.Keys
    && forall k | k in c.members ::
         && SameMember(c.members[k], d.members[k])
         && (k !in counted ==> d.members[k].unreadCount == c.members[k].unreadCount)
  }

  ghost predicate OtherMessagesSame(c: Chat, d: Chat, id: MessageId) {
    && (forall x | x in c.messages && x != id :: x in d.messages && d.messages[x] == c.messages[x])
    && (forall x | x in d.messages && x != id :: x in c.messages)
  }

  predicate SameMessageButRead(m: Message, n: Message) {
    n.room == m.room && n.sender == m.sender && n.createdAt == m.createdAt
  }

  predicate HasRead(m: Message, u: UserId) {
    m.readBy.Some? && u in m.readBy.value
  }

  /** Nobody but `u` has become or ceased to be a reader. */
  ghost predicate OtherReadersSame(m: Message, n: Message, u: UserId) {
    forall w | w != u :: HasRead(n, w) <==> HasRead(m, w)
  }

  // ---------------------------------------------------------------- sending

  /** Everybody in the room but the sender counts one more. */
  ghost predicate CountedForOthers(c: Chat, d: Chat, r: RoomId, sender: UserId) {
    && d.rooms == c.rooms && d.members.Keys == c.members.Keys
    && forall k | k in c.members ::
         && SameMember(c.members[k], d.members[k])
         && d.members[k].unreadCount == c.members[k].unreadCount + if k.0 == r && k.1 != sender then 1 else 0
  }

  /** Who may send: the caller's list decides if it was handed over, else the participant table. */
  lemma SendAllowedExactlyWhen(c: Chat, r: RoomId, sender: UserId, checked: Option<set<UserId>>)
    ensures MaySend(c, r, sender, checked) <==>
      (checked.Some? && sender in checked.value) || (checked.None? && (r, sender) in c.members)
  {
  }

  /** A sent message has been read by its sender alone. */
  lemma SendEffect(c: Chat, id: MessageId, r: RoomId, sender: UserId, createdAt: int)
    requires id !in c.messages
    ensures var d := Sent(c, id, r, sender, createdAt);
      && id in d.messages && OtherMessagesSame(c, d, id)
      && d.messages[id].room == r && d.messages[id].sender == sender && d.messages[id].createdAt == createdAt
      && !d.messages[id].isRead && forall w :: HasRead(d.messages[id], w) <==> w == sender
    ensures CountedForOthers(c, Sent(c, id, r, sender, createdAt), r, sender)
  {
  }

  /** A dispatch message has been read by nobody. */
  lemma DispatchEffect(c: Chat, id: MessageId, r: RoomId, system: UserId, createdAt: int)
    requires id !in c.messages
    ensures var d := Dispatched(c, id, r, system, createdAt);
      && id in d.messages && OtherMessagesSame(c, d, id)
      && d.messages[id].room == r && d.messages[id].sender == system && d.messages[id].createdAt == createdAt
      && !d.messages[id].isRead && forall w :: !HasRead(d.messages[id], w)
    ensures CountedForOthers(c, Dispatched(c, id, r, system, createdAt), r, system)
  {
  }

  // ---------------------------------------------------------------- one message

  /** A first read by another than the sender: the reader is added, and counts one less but never below zero. */
  lemma ReadOneEffect(c: Chat, id: MessageId, u: UserId)
    ensures var d := ReadOne(c, id, u);
      if id in c.messages && c.messages[id].sender != u && !HasRead(c.messages[id], u) then
        var m := c.messages[id]; var k := (m.room, u);
        && d.rooms == c.rooms && id in d.messages && OtherMessagesSame(c, d, id)
        && SameMessageButRead(m, d.messages[id]) && d.messages[id].isRead
        && HasRead(d.messages[id], u) && OtherReadersSame(m, d.messages[id], u)
        && OnlyCounters(c, d, {k})
        && (k in c.members ==>
              d.members[k].unreadCount == if c.members[k].unreadCount >= 1 then c.members[k].unreadCount - 1 else 0)
      else d == c
  {
  }

  /** When a message is marked unread again, and how a request that cannot be is answered. */
  lemma UnreadOneReplies(c: Chat, id: MessageId, u: UserId)
    ensures var reply := UnreadOne(c, id, u).1;
      var known := id in c.messages && (c.messages[id].sender == u || c.messages[id].room in c.rooms);
      && (reply == NotFound <==> !known)
      && (reply == OwnMessage <==> known && c.messages[id].sender == u)
      && (reply == ParticipantRowMissing <==>
            known && c.messages[id].sender != u && HasRead(c.messages[id], u) && (c.messages[id].room, u) !in c.members)
      && (reply == Ok <==>
            known && c.messages[id].sender != u && (HasRead(c.messages[id], u) ==> (c.messages[id].room, u) in c.members))
  {
  }

  /** The reader is taken out and counts one more; in direct and offer rooms the message is unread for all. */
  lemma UnreadOneEffect(c: Chat, id: MessageId, u: UserId)
    ensures var (d, reply) := UnreadOne(c, id, u);
      if id in c.messages && c.messages[id].sender != u && c.messages[id].room in c.rooms && HasRead(c.messages[id], u) then
        var m := c.messages[id]; var k := (m.room, u);
        && d.rooms == c.rooms && id in d.messages && OtherMessagesSame(c, d, id)
        && SameMessageButRead(m, d.messages[id])
        && d.messages[id].isRead == (m.isRead && c.rooms[m.room] == OtherRoom)
        && !HasRead(d.messages[id], u) && OtherReadersSame(m, d.messages[id], u)
        && OnlyCounters(c, d, {k})
        && (k in c.members ==> d.members[k].unreadCount == c.members[k].unreadCount + 1)
      else d == c
  {
  }

  /** The message is gone, and every other member of its room who had not read it counts one less, never below zero. */
  lemma DeleteEffect(c: Chat, id: MessageId)
    requires id in c.messages
    ensures var d := Deleted(c, id); var m := c.messages[id];
      && d.rooms == c.rooms && id !in d.messages && OtherMessagesSame(c, d, id)
      && d.members.Keys == c.members.Keys
      && forall k | k in c.members ::
           && SameMember(c.members[k], d.members[k])
           && d.members[k].unreadCount ==
                if k.0 != m.room || k.1 == m.sender || HasRead(m, k.1) then c.members[k].unreadCount
                else if c.members[k].unreadCount >= 1 then c.members[k].unreadCount - 1
                else 0
  {
    var d, m := Deleted(c, id), c.messages[id];
    forall k | k in c.members && k.0 == m.room && k.1 != m.sender && !HasRead(m, k.1)
      ensures UnreadFor(m, k.0, k.1) && k.1 in (set x | x in c.members :: x.1)
    {
      assert k in c.members;
    }
  }

  // ---------------------------------------------------------------- whole rooms

  /** A room-wide read by `u` concerns the message: a driver's from their join on, own ones only if asked for. */
  predicate Concerned(c: Chat, m: Message, r: RoomId, u: UserId, excludeOwn: bool) {
    && m.room == r
    && (r, u) in c.members
    && (c.members[(r, u)].isDriver ==> c.members[(r, u)].joinedAt <= m.createdAt)
    && (excludeOwn ==> m.sender != u)
  }

  /** What one message of a room that was read looks like afterwards. */
  ghost predicate ReadMessage(m: Message, n: Message, u: UserId, concerned: bool) {
    if concerned && !HasRead(m, u)
    then SameMessageButRead(m, n) && n.isRead && HasRead(n, u) && OtherReadersSame(m, n, u)
    else n == m
  }

  /**
   For every member, driver or not: afterwards the counter is zero and the member is among the readers of every
   message concerned; no other reader, message, member or counter has changed. For anybody else nothing happens.
   */
  lemma ReadRoomEffect(c: Chat, r: RoomId, u: UserId, excludeOwn: bool)
    ensures var d := ReadRoom(c, r, u, excludeOwn);
      && ((r, u) !in c.members ==> d == c)
      && d.rooms == c.rooms && OnlyCounters(c, d, {(r, u)})
      && ((r, u) in c.members ==> d.members[(r, u)].unreadCount == 0)
      && d.messages.Keys == c.messages.Keys
      && forall id | id in c.messages ::
           ReadMessage(c.messages[id], d.messages[id], u, Concerned(c, c.messages[id], r, u, excludeOwn))
  {
  }

  /** In particular a member has then read everything concerned. */
  lemma EverythingRead(c: Chat, r: RoomId, u: UserId, excludeOwn: bool, id: MessageId)
    requires id in c.messages && Concerned(c, c.messages[id], r, u, excludeOwn)
    ensures var d := ReadRoom(c, r, u, excludeOwn); id in d.messages && HasRead(d.messages[id], u)
  {
    ReadRoomEffect(c, r, u, excludeOwn);
  }

  /** The message belongs to one of the rooms, and reading that room concerns it. */
  predicate ConcernedBySome(c: Chat, m: Message, rs: seq<RoomId>, u: UserId) {
    m.room in rs && Concerned(c, m, m.room, u, false)
  }

  /** "Read all", for any list of rooms: each room of the member is read from the cutoff on, own messages included. */
  lemma {:induction false} ReadRoomsEffect(c: Chat, rs: seq<RoomId>, u: UserId)
    ensures var d := ReadRooms(c, rs, u);
      && d.rooms == c.rooms && d.members.Keys == c.members.Keys && d.messages.Keys == c.messages.Keys
      && (forall k | k in c.members ::
            && SameMember(c.members[k], d.members[k])
            && d.members[k].unreadCount == if k.1 == u && k.0 in rs then 0 else c.members[k].unreadCount)
      && (forall id | id in c.messages ::
            ReadMessage(c.messages[id], d.messages[id], u, ConcernedBySome(c, c.messages[id], rs, u)))
  {
    if rs != [] {
      var n := |rs| - 1;
      var e := ReadRooms(c, rs[..n], u);
      ReadRoomsEffect(c, rs[..n], u);
      ReadRoomEffect(e, rs[n], u, false);
      assert forall r :: r in rs <==> r in rs[..n] || r == rs[n];
      forall id | id in c.messages
        ensures ReadMessage(c.messages[id], ReadRooms(c, rs, u).messages[id], u, ConcernedBySome(c, c.messages[id], rs, u))
      {
        ReadAgain(c, e, ReadRooms(c, rs, u), rs, u, id);
      }
    }
  }

  lemma ReadAgain(c: Chat, e: Chat, d: Chat, rs: seq<RoomId>, u: UserId, id: MessageId)
    requires rs != [] && id in c.messages && id in e.messages && id in d.messages && e.members.Keys == c.members.Keys
    requires forall k | k in c.members :: SameMember(c.members[k], e.members[k])
    requires ReadMessage(c.messages[id], e.messages[id], u, ConcernedBySome(c, c.messages[id], rs[..|rs| - 1], u))
    requires ReadMessage(e.messages[id], d.messages[id], u, Concerned(e, e.messages[id], rs[|rs| - 1], u, false))
    ensures ReadMessage(c.messages[id], d.messages[id], u, ConcernedBySome(c, c.messages[id], rs, u))
  {
    var m := c.messages[id];
    assert m.room in rs <==> m.room in rs[..|rs| - 1] || m.room == rs[|rs| - 1];
    assert e.messages[id].room == m.room && e.messages[id].createdAt == m.createdAt;
  }

  // ---------------------------------------------------------------- joining and archiving

  /** A newcomer counts nothing; somebody who is in the room already stays as they are. */
  lemma JoinEffect(c: Chat, r: RoomId, u: UserId, isDriver: bool, joinedAt: int)
    ensures var d := Joined(c, r, u, isDriver, joinedAt);
      && d.rooms == c.rooms && d.messages == c.messages
      && d.members.Keys == c.members.Keys + {(r, u)}
      && (forall k | k in c.members :: d.members[k] == c.members[k])
      && ((r, u) !in c.members ==> d.members[(r, u)] == Member(joinedAt, isDriver, 0))
  {
  }
}
