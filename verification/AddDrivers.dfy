/**
 Adding drivers to a LOAD room: a room without a driver takes the first one in place, every other driver gets a
 fork of the room, or the live room they already have.
 */
module AddDrivers {
  import opened Options
  import opened LoadChats
  import opened CreateLoadChat

  datatype Error = NotLoadChat | NoLoadId | NoAccess | NotADriver | NotActive

  datatype Reply = Forked(room: RoomId, created: bool) | Failed(error: Error)

  /** Who may be asked for: `users` are the drivers of the database, `active` those with ACTIVE status. */
  datatype Directory = Directory(users: set<UserId>, active: set<UserId>)

  function ForkError(rooms: map<RoomId, Room>, source: RoomId, driver: UserId, actor: UserId, dir: Directory): Option<Error> {
    if source !in rooms || rooms[source].kind != LoadRoom then Some(NotLoadChat)
    else if rooms[source].loadId.None? then Some(NoLoadId)
    else if actor !in rooms[source].participants then Some(NoAccess)
    else if driver !in dir.users then Some(NotADriver)
    else if driver !in dir.active then Some(NotActive)
    else None
  }

  predicate IsLoad(rooms: map<RoomId, Room>, source: RoomId) {
    source in rooms && rooms[source].kind == LoadRoom
  }

  /** The fork may be made: a LOAD room with a load id, asked for by one of its participants, and an active driver. */
  predicate MayFork(rooms: map<RoomId, Room>, source: RoomId, driver: UserId, actor: UserId, dir: Directory) {
    && IsLoad(rooms, source) && rooms[source].loadId.Some? && actor in rooms[source].participants
    && driver in dir.users && driver in dir.active
  }

  /** Nothing but new live rooms for these drivers, with the staff of the source. */
  ghost predicate OnlyForks(before: map<RoomId, Room>, after: map<RoomId, Room>, source: RoomId, drivers: seq<UserId>, dir: Directory)
    requires source in before
  {
    && (forall r | r in before :: r in after && after[r] == before[r])
    && (forall r | r in after && r !in before ::
          exists d | d in drivers :: after[r] == Room(LoadRoom, before[source].loadId, false, before[source].participants - dir.users + {d}))
  }

  /** Each reply that is no refusal names a live room of its driver. */
  ghost predicate Answered(before: map<RoomId, Room>, after: map<RoomId, Room>, source: RoomId, drivers: seq<UserId>, replies: seq<Reply>)
    requires source in before && |replies| <= |drivers|
  {
    forall i | 0 <= i < |replies| && replies[i].Forked? ::
      && replies[i].room in after && before[source].loadId.Some?
      && Matches(after[replies[i].room], before[source].loadId.value, drivers[i], true)
  }

  ghost predicate ForkedSoFar(start: map<RoomId, Room>, rooms: map<RoomId, Room>, source: RoomId, drivers: seq<UserId>,
                              replies: seq<Reply>, dir: Directory)
    requires source in start && |replies| <= |drivers|
  {
    && OnlyForks(start, rooms, source, drivers, dir) && Answered(start, rooms, source, drivers, replies)
    && source in rooms && rooms[source] == start[source]
  }

  lemma ForksNext(start: map<RoomId, Room>, before: map<RoomId, Room>, after: map<RoomId, Room>, source: RoomId,
                  drivers: seq<UserId>, i: nat, replies: seq<Reply>, reply: Reply, id: RoomId, dir: Directory)
    requires source in start && i < |drivers| && |replies| == i && id !in before
    requires ForkedSoFar(start, before, source, drivers, replies, dir)
    requires after == before || after == before[id := Room(LoadRoom, start[source].loadId, false, start[source].participants - dir.users + {drivers[i]})]
    requires reply.Forked? ==>
      && reply.room in after && start[source].loadId.Some?
      && Matches(after[reply.room], start[source].loadId.value, drivers[i], true)
    ensures ForkedSoFar(start, after, source, drivers, replies + [reply], dir)
  {
    assert drivers[i] in drivers;
    assert forall k | 0 <= k < i :: (replies + [reply])[k] == replies[k];
  }

  /** A fork in a quiet table where the driver has no live room of the load. */
  lemma QuietFork(dir: Directory, rooms: map<RoomId, Room>, load: LoadId, driver: UserId, staff: set<UserId>, id: RoomId)
    requires Quiet(dir.users, rooms) && id !in rooms && driver in dir.users && staff !! dir.users
    requires !Exists(rooms, load, driver, true)
    ensures Quiet(dir.users, rooms[id := Room(LoadRoom, Some(load), false, staff + {driver})])
  {
    var tx := Tx(Fork, load, driver, staff + {driver}, {}, Clear);
    var s := System(dir.users, rooms, map[0 := tx], map[]);
    assert tx.desired * dir.users == {driver};
    assert Inv(s);
    WriteKeepsRooms(s, 0, id);
    assert Written(rooms, tx, id) == rooms[id := Room(LoadRoom, Some(load), false, staff + {driver})];
    assert Do(s, Write(0, id)).txs == map[];
  }

  /** Attaching in a quiet table where no other live room of the load has the driver. */
  lemma QuietAttach(dir: Directory, rooms: map<RoomId, Room>, source: RoomId, driver: UserId)
    requires Quiet(dir.users, rooms) && source in rooms && driver in dir.users && rooms[source].kind == LoadRoom
    requires rooms[source].participants !! dir.users
    requires rooms[source].loadId.Some? ==>
      forall q | q in rooms && q != source :: !Matches(rooms[q], rooms[source].loadId.value, driver, true)
    ensures Quiet(dir.users, rooms[source := rooms[source].(participants := rooms[source].participants + {driver})])
  {
    var quiet := System(dir.users, rooms, map[], map[]);
    var s := quiet.(attaches := map[0 := Attach(source, driver, rooms[source].loadId, true)]);
    assert Inv(quiet) && Inv(s);
    AttachKeeps(s, 0);
    assert AfterAttachWrite(s, 0).attaches == map[];
  }

  class ChatRoomsService {
    var rooms: map<RoomId, Room>

    /** `id` is the key of a new room. The look before the lock and the one under it see the same table here. */
    method ForkLoadChatWithDriver(source: RoomId, driver: UserId, actor: UserId, dir: Directory, id: RoomId) returns (reply: Reply)
      requires Quiet(dir.users, rooms) && id !in rooms
      modifies this
      ensures Quiet(dir.users, rooms)
      ensures reply.Failed? <==> ForkError(old(rooms), source, driver, actor, dir).Some?
      ensures reply.Forked? <==> MayFork(old(rooms), source, driver, actor, dir)
      ensures reply == Failed(NotLoadChat) <==> !IsLoad(old(rooms), source)
      ensures reply == Failed(NoLoadId) <==> IsLoad(old(rooms), source) && old(rooms)[source].loadId.None?
      ensures reply == Failed(NoAccess) <==>
        IsLoad(old(rooms), source) && old(rooms)[source].loadId.Some? && actor !in old(rooms)[source].participants
      ensures reply == Failed(NotADriver) ==> driver !in dir.users
      ensures reply == Failed(NotActive) ==> driver in dir.users && driver !in dir.active
      ensures reply.Failed? ==> rooms == old(rooms) && Some(reply.error) == ForkError(old(rooms), source, driver, actor, dir)
      ensures reply.Forked? ==>
        var load := old(rooms)[source].loadId.value;
        && reply.room in rooms && Matches(rooms[reply.room], load, driver, true)
        && reply.created == !Exists(old(rooms), load, driver, true)
        && rooms == if reply.created
             then old(rooms)[id := Room(LoadRoom, Some(load), false, old(rooms)[source].participants - dir.users + {driver})]
             else old(rooms)
    {
      if source !in rooms || rooms[source].kind != LoadRoom {
        return Failed(NotLoadChat);
      }
      var room := rooms[source];
      match room.loadId
      case None =>
        return Failed(NoLoadId);
      case Some(load) =>
        if actor !in room.participants {
          return Failed(NoAccess);
        }
        if driver !in dir.users {
          return Failed(NotADriver);
        }
        if driver !in dir.active {
          return Failed(NotActive);
        }
        var existing := set r | r in rooms && Matches(rooms[r], load, driver, true);
        if existing != {} {
          var r :| r in existing;
          return Forked(r, false);
        }
        assert forall r | r in rooms :: r !in existing;
        QuietFork(dir, rooms, load, driver, room.participants - dir.users, id);
        rooms := rooms[id := Room(LoadRoom, Some(load), false, room.participants - dir.users + {driver})];
        return Forked(id, true);
    }

    /** One fork after the other; the first refused one ends the request, and what was forked stays. */
    method ForkAll(source: RoomId, drivers: seq<UserId>, actor: UserId, dir: Directory, ids: seq<RoomId>)
      returns (replies: seq<Reply>)
      requires Quiet(dir.users, rooms) && source in rooms && |ids| == |drivers|
      requires forall i | 0 <= i < |ids| :: ids[i] !in rooms
      requires forall i, j | 0 <= i < j < |ids| :: ids[i] != ids[j]
      modifies this
      ensures Quiet(dir.users, rooms)
      ensures OnlyForks(old(rooms), rooms, source, drivers, dir)
      ensures |replies| <= |drivers|
      ensures forall i | 0 <= i < |replies| && replies[i].Failed? ::
        i == |replies| - 1 && Some(replies[i].error) == ForkError(old(rooms), source, drivers[i], actor, dir)
      ensures forall i | 0 <= i < |replies| :: replies[i].Forked? <==> MayFork(old(rooms), source, drivers[i], actor, dir)
      ensures |replies| < |drivers| ==> replies != [] && replies[|replies| - 1].Failed?
      ensures Answered(old(rooms), rooms, source, drivers, replies)
    {
      replies := [];
      ghost var start := rooms;
      var i := 0;
      while i < |drivers|
        invariant 0 <= i == |replies| <= |drivers|
        invariant Quiet(dir.users, rooms)
        invariant ForkedSoFar(start, rooms, source, drivers, replies, dir)
        invariant forall k | i <= k < |ids| :: ids[k] !in rooms
        invariant forall k | 0 <= k < i :: replies[k].Forked? && MayFork(start, source, drivers[k], actor, dir)
      {
        ghost var before := rooms;
        var reply := ForkLoadChatWithDriver(source, drivers[i], actor, dir, ids[i]);
        assert reply.Forked? <==> MayFork(start, source, drivers[i], actor, dir);
        ForksNext(start, before, rooms, source, drivers, i, replies, reply, ids[i], dir);
        replies := replies + [reply];
        if reply.Failed? {
          return;
        }
        i := i + 1;
      }
    }

    /**
     The LOAD part of adding participants, for distinct drivers of the database. Forks come first; the driver who
     is taken in place is attached only if none of them was refused.
     */
    method AddParticipants(source: RoomId, drivers: seq<UserId>, actor: UserId, dir: Directory, ids: seq<RoomId>)
      returns (allowed: bool, attached: Option<UserId>, reused: Option<RoomId>, replies: seq<Reply>)
      requires Quiet(dir.users, rooms) && source in rooms && rooms[source].kind == LoadRoom && drivers != []
      requires forall i | 0 <= i < |drivers| :: drivers[i] in dir.users
      requires forall i, j | 0 <= i < j < |drivers| :: drivers[i] != drivers[j]
      requires |ids| == |drivers|
      requires forall i | 0 <= i < |ids| :: ids[i] !in rooms
      requires forall i, j | 0 <= i < j < |ids| :: ids[i] != ids[j]
      modifies this
      ensures Quiet(dir.users, rooms)
      ensures source in rooms
      ensures allowed <==> actor in old(rooms)[source].participants
      ensures !allowed ==> rooms == old(rooms) && attached.None? && reused.None? && replies == []
      ensures allowed && old(rooms)[source].participants !! dir.users ==>
        && |replies| <= |drivers[1..]|
        && OnlyForks(old(rooms), rooms[source := old(rooms)[source]], source, drivers[1..], dir)
        && Answered(old(rooms), rooms[source := old(rooms)[source]], source, drivers[1..], replies)
      ensures allowed && old(rooms)[source].participants !! dir.users ==>
        (attached.Some? <==> reused.None? && forall i | 0 <= i < |replies| :: replies[i].Forked?)
      ensures rooms[source] == old(rooms)[source].(participants :=
        old(rooms)[source].participants + if attached.Some? then {drivers[0]} else {})
      ensures reused.Some? ==>
        && attached.None? && reused.value in rooms && reused.value != source && old(rooms)[source].loadId.Some?
        && Matches(rooms[reused.value], old(rooms)[source].loadId.value, drivers[0], true)
      ensures allowed && !(old(rooms)[source].participants !! dir.users) ==>
        && attached.None? && reused.None? && |replies| <= |drivers|
        && OnlyForks(old(rooms), rooms, source, drivers, dir) && Answered(old(rooms), rooms, source, drivers, replies)
    {
      var room := rooms[source];
      allowed, attached, reused, replies := actor in room.participants, None, None, [];
      if !allowed {
        return;
      }
      if !(room.participants !! dir.users) {
        replies := ForkAll(source, drivers, actor, dir, ids);
        return;
      }
      ghost var start := rooms;
      var first := drivers[0];
      var others := set r | r in rooms && r != source && room.loadId.Some? && Matches(rooms[r], room.loadId.value, first, true);
      if others != {} {
        var r :| r in others;
        reused := Some(r);
      }
      ForkIds(ids, rooms);
      replies := ForkAll(source, drivers[1..], actor, dir, ids[1..]);
      assert rooms[source := room] == rooms;
      if reused.Some? || exists i | 0 <= i < |replies| :: replies[i].Failed? {
        assert reused.None? ==> exists i | 0 <= i < |replies| :: !replies[i].Forked?;
        return;
      }
      OthersForked(start, rooms, source, drivers, dir);
      assert rooms[source] == room && room.participants !! dir.users;
      assert forall q | q in start && q != source :: q !in others;
      QuietAttach(dir, rooms, source, first);
      ghost var forked := rooms;
      rooms := rooms[source := room.(participants := room.participants + {first})];
      assert rooms[source := room] == forked;
      attached := Some(first);
    }
  }

  lemma ForkIds(ids: seq<RoomId>, rooms: map<RoomId, Room>)
    requires |ids| > 0 && forall i | 0 <= i < |ids| :: ids[i] !in rooms
    requires forall i, j | 0 <= i < j < |ids| :: ids[i] != ids[j]
    ensures forall i | 0 <= i < |ids| - 1 :: ids[1..][i] !in rooms
    ensures forall i, j | 0 <= i < j < |ids| - 1 :: ids[1..][i] != ids[1..][j]
  {
  }

  /** Forks for the other drivers give the first one no room. */
  lemma OthersForked(before: map<RoomId, Room>, after: map<RoomId, Room>, source: RoomId, drivers: seq<UserId>, dir: Directory)
    requires source in before && |drivers| > 0 && OnlyForks(before, after, source, drivers[1..], dir)
    requires drivers[0] in dir.users && forall i, j | 0 <= i < j < |drivers| :: drivers[i] != drivers[j]
    ensures forall r | r in after && r !in before :: drivers[0] !in after[r].participants
  {
    forall r | r in after && r !in before ensures drivers[0] !in after[r].participants {
      var d :| d in drivers[1..] && after[r] == Room(LoadRoom, before[source].loadId, false, before[source].participants - dir.users + {d});
      assert d != drivers[0];
    }
  }
}
