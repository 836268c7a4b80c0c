/** The message operations over their tables, proved against module UnreadCounters. */
module Messages {
  import opened Options
  import opened UnreadCounters

  class MessagesService {
    var rooms: map<RoomId, RoomType>
    var members: map<MemberKey, Member>
    var messages: map<MessageId, Message>

    function State(): Chat
      reads this
    {
      Chat(rooms, members, messages)
    }

    constructor (rooms: map<RoomId, RoomType>)
      ensures State() == Chat(rooms, map[], map[]) && Good(State())
    {
      this.rooms, members, messages := rooms, map[], map[];
    }

    method IncrementUnreadCountForOtherParticipants(r: RoomId, sender: UserId)
      modifies this`members
      ensures State() == AddUnread(old(State()), r, sender)
    {
      members := map k | k in members ::
        if k.0 == r && k.1 != sender then members[k].(unreadCount := members[k].unreadCount + 1) else members[k];
    }

    method DecrementParticipantUnreadCount(r: RoomId, u: UserId)
      modifies this`members
      ensures State() == Decrement(old(State()), (r, u))
    {
      var k := (r, u);
      if k in members {
        var n := members[k].unreadCount - 1;
        members := members[k := members[k].(unreadCount := if n < 0 then 0 else n)];
      }
    }

    /** `hasBody` is whether the request has text or an attachment; `id` is the database's new key. */
    method SendMessage(id: MessageId, r: RoomId, sender: UserId, hasBody: bool, checked: Option<set<UserId>>, createdAt: int)
      returns (reply: Reply)
      requires id !in messages
      modifies this
      ensures !hasBody ==> reply == Empty && State() == old(State())
      ensures hasBody && !MaySend(old(State()), r, sender, checked) ==> reply == NotParticipant && State() == old(State())
      ensures hasBody && MaySend(old(State()), r, sender, checked) ==>
        reply == Ok && State() == Sent(old(State()), id, r, sender, createdAt)
    {
      if !hasBody {
        return Empty;
      }
      match checked {
        case Some(ids) =>
          if sender !in ids {
            return NotParticipant;
          }
        case None =>
          if (r, sender) !in members {
            return NotParticipant;
          }
      }
      messages := messages[id := Message(r, sender, createdAt, Some([sender]), false)];
      IncrementUnreadCountForOtherParticipants(r, sender);
      return Ok;
    }

    method CreateLoadDispatchSystemMessage(id: MessageId, r: RoomId, system: UserId, hasText: bool, createdAt: int)
      returns (created: bool)
      requires id !in messages
      modifies this
      ensures created == hasText
      ensures State() == if hasText then Dispatched(old(State()), id, r, system, createdAt) else old(State())
    {
      if !hasText {
        return false;
      }
      messages := messages[id := Message(r, system, createdAt, Some([]), false)];
      IncrementUnreadCountForOtherParticipants(r, system);
      return true;
    }

    method MarkMessageAsRead(id: MessageId, u: UserId)
      modifies this
      ensures State() == ReadOne(old(State()), id, u)
    {
      if id !in messages || messages[id].sender == u {
        return;
      }
      var message := messages[id];
      var readBy := Readers(message);
      if u in readBy {
        return;
      }
      messages := messages[id := message.(isRead := true, readBy := Some(readBy + [u]))];
      DecrementParticipantUnreadCount(message.room, u);
    }

    method MarkMessageAsUnread(id: MessageId, u: UserId) returns (reply: Reply)
      modifies this
      ensures (State(), reply) == UnreadOne(old(State()), id, u)
    {
      if id !in messages {
        return NotFound;
      }
      var message := messages[id];
      if message.sender == u {
        return OwnMessage;
      }
      if message.room !in rooms {
        return NotFound;
      }
      var readBy := Readers(message);
      if u !in readBy {
        return Ok;
      }
      var updated := Without(readBy, u);
      if rooms[message.room] == DirectRoom || rooms[message.room] == OfferRoom {
        messages := messages[id := message.(isRead := false, readBy := Some(updated))];
      } else {
        messages := messages[id := message.(readBy := Some(updated))];
      }
      var k := (message.room, u);
      if k !in members {
        return ParticipantRowMissing;
      }
      members := members[k := members[k].(unreadCount := members[k].unreadCount + 1)];
      return Ok;
    }

    /** One UPDATE over the room, then the counter is reset whatever the UPDATE found. */
    method ReadRoomFor(r: RoomId, u: UserId, excludeOwn: bool) returns (updated: set<MessageId>)
      modifies this
      ensures State() == ReadRoom(old(State()), r, u, excludeOwn)
      ensures updated == set id | id in old(messages) && messages[id] != old(messages)[id]
    {
      var k := (r, u);
      if k !in members {
        return {};
      }
      var cutoff := if members[k].isDriver then Some(members[k].joinedAt) else None;
      updated := set id | id in messages && TakenByRead(messages[id], r, u, cutoff, excludeOwn);
      ghost var before := messages;
      messages := map id | id in messages ::
        if id in updated then messages[id].(isRead := true, readBy := Some(Readers(messages[id]) + [u])) else messages[id];
      assert forall id | id in updated :: |Readers(messages[id])| == |Readers(before[id])| + 1;
      members := members[k := members[k].(unreadCount := 0)];
      assert State().messages == ReadRoom(old(State()), r, u, excludeOwn).messages;
    }

    /** "Read all": every listed room in turn, own messages included. */
    method MarkAllMessagesAsReadByChatRooms(chatRooms: seq<RoomId>, u: UserId) returns (affected: set<RoomId>, ids: set<MessageId>)
      modifies this
      ensures State() == ReadRooms(old(State()), chatRooms, u)
      ensures affected == set r | r in chatRooms && (r, u) in old(members)
      ensures ids == set id | id in old(messages) && id in messages && messages[id] != old(messages)[id]
    {
      affected, ids := {}, {};
      var i := 0;
      while i < |chatRooms|
        invariant 0 <= i <= |chatRooms|
        invariant State() == ReadRooms(old(State()), chatRooms[..i], u)
        invariant members.Keys == old(members).Keys && messages.Keys == old(messages).Keys
        invariant affected == set r | r in chatRooms[..i] && (r, u) in old(members)
        invariant forall id :: id in ids <==> id in messages && messages[id] != old(messages)[id]
        invariant forall id | id in ids :: u in Readers(messages[id])
      {
        assert chatRooms[..i + 1] == chatRooms[..i] + [chatRooms[i]];
        assert chatRooms[..i + 1][..i] == chatRooms[..i];
        if (chatRooms[i], u) in members {
          var updated := ReadRoomFor(chatRooms[i], u, false);
          affected := affected + {chatRooms[i]};
          ids := ids + updated;
        }
        i := i + 1;
      }
      assert chatRooms[..i] == chatRooms;
    }

    /** `participants` is the room's participant list in the order the database returned it. */
    method DeleteMessage(id: MessageId, permitted: bool, participants: seq<UserId>) returns (reply: Reply)
      requires id in messages ==> forall u :: u in participants <==> (messages[id].room, u) in members
      requires forall i, j :: 0 <= i < j < |participants| ==> participants[i] != participants[j]
      modifies this
      ensures id !in old(messages) ==> reply == AlreadyDeleted && State() == old(State())
      ensures id in old(messages) && !permitted ==> reply == NoPermission && State() == old(State())
      ensures id in old(messages) && permitted ==> reply == Ok && State() == Deleted(old(State()), id)
    {
      if id !in messages {
        return AlreadyDeleted;
      }
      if !permitted {
        return NoPermission;
      }
      var message := messages[id];
      DecrementUnreaders(message, participants);
      assert members == Deleted(old(State()), id).members;
      messages := messages - {id};
      return Ok;
    }

    method DecrementUnreaders(message: Message, participants: seq<UserId>)
      requires forall u :: u in participants <==> (message.room, u) in members
      requires forall i, j :: 0 <= i < j < |participants| ==> participants[i] != participants[j]
      modifies this`members
      ensures State() == Uncounted(old(State()), message, Elements(participants))
    {
      var readBy := Readers(message);
      ghost var c := State();
      UncountedNone(c, message);
      var i := 0;
      assert participants[..0] == [];
      while i < |participants|
        invariant 0 <= i <= |participants|
        invariant State() == Uncounted(c, message, Elements(participants[..i]))
      {
        ElementsNext(participants, i);
        UncountedNext(c, message, Elements(participants[..i]), participants[i]);
        if participants[i] != message.sender && participants[i] !in readBy {
          DecrementParticipantUnreadCount(message.room, participants[i]);
        }
        i := i + 1;
      }
      assert participants[..i] == participants;
    }
  }
}
