/**
 Bringing the staff of every LOAD room of a load to one target. Staff are compared by key, which is their
 external id; drivers are never touched.
 */
module StaffSync {
  import opened Options

  type UserId = string
  type Key = string
  type RoomId = string

  /** `hidden` are the participants whose row carries the hide flag. */
  datatype Room = Room(drivers: set<UserId>, staff: set<UserId>, hidden: set<UserId>)

  /** A participant of the request: external id, already trimmed, and whether the role is DRIVER. */
  datatype Request = Request(id: Key, isDriver: bool)

  datatype Target = Target(desired: map<Key, UserId>, hidden: set<UserId>, unresolved: set<Key>)

  function KeysOf(users: set<UserId>, keyOf: UserId -> Key): set<Key> {
    set u | u in users :: keyOf(u)
  }

  ghost predicate DistinctKeys(users: set<UserId>, keyOf: UserId -> Key) {
    forall u, v :: u in users && v in users && keyOf(u) == keyOf(v) ==> u == v
  }

  /** Every desired user is listed under their own key. */
  ghost predicate UnderOwnKey(desired: map<Key, UserId>, keyOf: UserId -> Key) {
    forall k :: k in desired ==> keyOf(desired[k]) == k
  }

  /** One current staff member for each key present. */
  ghost predicate IsIndex(index: map<Key, UserId>, staff: set<UserId>, keyOf: UserId -> Key) {
    && index.Keys == KeysOf(staff, keyOf)
    && forall k :: k in index ==> index[k] in staff && keyOf(index[k]) == k
  }

  // ---------------------------------------------------------------- the reconciliation of one room

  function ToAdd(room: Room, index: map<Key, UserId>, desired: map<Key, UserId>): set<UserId> {
    set k | k in desired && k !in index && desired[k] !in room.staff :: desired[k]
  }

  function ToRemove(index: map<Key, UserId>, target: Target): set<UserId> {
    set k | k in index && k !in target.desired && k !in target.unresolved && index[k] !in target.desired.Values :: index[k]
  }

  /** Hide flags are only rewritten when somebody is added or removed. */
  function Synced(room: Room, index: map<Key, UserId>, target: Target): Room {
    var add := ToAdd(room, index, target.desired);
    var remove := ToRemove(index, target);
    if add == {} && remove == {} then room
    else
      var rewritten := add + target.desired.Values * room.staff;
      Room(room.drivers, room.staff - remove + add, room.hidden - remove - rewritten + target.hidden * rewritten)
  }

  /** Every key that is neither desired nor unresolved belongs to one member, the one the index names. */
  ghost predicate StaleKeysSingle(room: Room, index: map<Key, UserId>, target: Target, keyOf: UserId -> Key) {
    forall u :: u in room.staff && keyOf(u) !in target.desired && keyOf(u) !in target.unresolved ==>
      keyOf(u) in index && index[keyOf(u)] == u
  }

  ghost predicate IsSynced(before: Room, after: Room, target: Target, keyOf: UserId -> Key) {
    exists index :: IsIndex(index, before.staff, keyOf) && after == Synced(before, index, target)
  }

  lemma StaffAfter(room: Room, index: map<Key, UserId>, target: Target, keyOf: UserId -> Key, u: UserId)
    requires IsIndex(index, room.staff, keyOf) && UnderOwnKey(target.desired, keyOf)
    ensures u in Synced(room, index, target).staff <==>
      var k := keyOf(u);
      || (u in room.staff && (k in target.desired || k in target.unresolved || index[k] != u))
      || (k in target.desired && target.desired[k] == u && k !in KeysOf(room.staff, keyOf))
  {
    var k := keyOf(u);
    if u in room.staff {
      assert k in index;
      if u in ToRemove(index, target) {
        var j :| j in index && j !in target.desired && j !in target.unresolved && index[j] == u;
        assert j == k;
      }
      if k !in target.desired {
        assert u !in target.desired.Values;
      }
    }
    if u in ToAdd(room, index, target.desired) {
      var j :| j in target.desired && j !in index && target.desired[j] == u;
      assert j == k;
    }
  }

  /**
   After a sync a room holds exactly the desired keys and its unresolved ones, if and only if no stale key was
   shared by two of its members.
   */
  lemma KeysAfterSync(room: Room, index: map<Key, UserId>, target: Target, keyOf: UserId -> Key)
    requires IsIndex(index, room.staff, keyOf) && UnderOwnKey(target.desired, keyOf)
    ensures KeysOf(Synced(room, index, target).staff, keyOf)
        == target.desired.Keys + KeysOf(room.staff, keyOf) * target.unresolved
      <==> StaleKeysSingle(room, index, target, keyOf)
  {
    var after := Synced(room, index, target).staff;
    var goal := target.desired.Keys + KeysOf(room.staff, keyOf) * target.unresolved;
    forall k | k in goal ensures k in KeysOf(after, keyOf) {
      if k in index {
        StaffAfter(room, index, target, keyOf, index[k]);
        assert keyOf(index[k]) == k;
      } else {
        StaffAfter(room, index, target, keyOf, target.desired[k]);
        assert keyOf(target.desired[k]) == k;
      }
    }
    if StaleKeysSingle(room, index, target, keyOf) {
      forall k | k in KeysOf(after, keyOf) ensures k in goal {
        var u :| u in after && keyOf(u) == k;
        StaffAfter(room, index, target, keyOf, u);
      }
    } else {
      var u :| u in room.staff && keyOf(u) !in target.desired && keyOf(u) !in target.unresolved && index[keyOf(u)] != u;
      StaffAfter(room, index, target, keyOf, u);
      assert keyOf(u) in KeysOf(after, keyOf) && keyOf(u) !in goal;
    }
  }

  /** With distinct keys the sync meets its target, keeps keys distinct and leaves the drivers alone. */
  lemma SyncMeetsTarget(room: Room, index: map<Key, UserId>, target: Target, keyOf: UserId -> Key)
    requires IsIndex(index, room.staff, keyOf) && UnderOwnKey(target.desired, keyOf) && DistinctKeys(room.staff, keyOf)
    ensures var after := Synced(room, index, target);
      && KeysOf(after.staff, keyOf) == target.desired.Keys + KeysOf(room.staff, keyOf) * target.unresolved
      && DistinctKeys(after.staff, keyOf)
      && after.drivers == room.drivers
  {
    KeysAfterSync(room, index, target, keyOf);
    var after := Synced(room, index, target).staff;
    forall u, v | u in after && v in after && keyOf(u) == keyOf(v) ensures u == v {
      StaffAfter(room, index, target, keyOf, u);
      StaffAfter(room, index, target, keyOf, v);
      assert u in room.staff ==> keyOf(u) in KeysOf(room.staff, keyOf);
      assert v in room.staff ==> keyOf(v) in KeysOf(room.staff, keyOf);
    }
  }

  /** A second run changes nothing. */
  lemma SyncTwice(room: Room, index: map<Key, UserId>, target: Target, keyOf: UserId -> Key, again: map<Key, UserId>)
    requires IsIndex(index, room.staff, keyOf) && UnderOwnKey(target.desired, keyOf) && DistinctKeys(room.staff, keyOf)
    requires IsIndex(again, Synced(room, index, target).staff, keyOf)
    ensures Synced(Synced(room, index, target), again, target) == Synced(room, index, target)
  {
    SyncMeetsTarget(room, index, target, keyOf);
    var after := Synced(room, index, target);
    assert forall k | k in again :: k in target.desired || k in target.unresolved;
    assert ToAdd(after, again, target.desired) == {};
    assert ToRemove(again, target) == {};
  }

  /** When nothing is unresolved all rooms of the load end with the same keys. */
  lemma RoomsAgree(room: Room, index: map<Key, UserId>, other: Room, otherIndex: map<Key, UserId>, target: Target,
                   keyOf: UserId -> Key)
    requires UnderOwnKey(target.desired, keyOf) && target.unresolved == {}
    requires IsIndex(index, room.staff, keyOf) && DistinctKeys(room.staff, keyOf)
    requires IsIndex(otherIndex, other.staff, keyOf) && DistinctKeys(other.staff, keyOf)
    ensures KeysOf(Synced(room, index, target).staff, keyOf)
         == KeysOf(Synced(other, otherIndex, target).staff, keyOf)
         == target.desired.Keys
  {
    OnlyDesiredKeys(room, index, target, keyOf);
    OnlyDesiredKeys(other, otherIndex, target, keyOf);
  }

  lemma OnlyDesiredKeys(room: Room, index: map<Key, UserId>, target: Target, keyOf: UserId -> Key)
    requires UnderOwnKey(target.desired, keyOf) && target.unresolved == {}
    requires IsIndex(index, room.staff, keyOf) && DistinctKeys(room.staff, keyOf)
    ensures KeysOf(Synced(room, index, target).staff, keyOf) == target.desired.Keys
  {
    SyncMeetsTarget(room, index, target, keyOf);
    assert target.desired.Keys + KeysOf(room.staff, keyOf) * target.unresolved == target.desired.Keys;
  }

  /** And where a key names one user, they end with exactly the desired users. */
  lemma StaffIsDesired(room: Room, index: map<Key, UserId>, target: Target, keyOf: UserId -> Key)
    requires UnderOwnKey(target.desired, keyOf) && target.unresolved == {} && IsIndex(index, room.staff, keyOf)
    requires DistinctKeys(room.staff, keyOf) && DistinctKeys(room.staff + target.desired.Values, keyOf)
    ensures Synced(room, index, target).staff == target.desired.Values
  {
    OnlyDesiredKeys(room, index, target, keyOf);
    var after := Synced(room, index, target).staff;
    assert after <= room.staff + target.desired.Values;
    forall u | u in after ensures u in target.desired.Values {
      assert keyOf(u) in KeysOf(after, keyOf);
      assert target.desired[keyOf(u)] in target.desired.Values;
      assert u == target.desired[keyOf(u)];
    }
    forall v | v in target.desired.Values ensures v in after {
      var k :| k in target.desired && target.desired[k] == v;
      assert k in KeysOf(after, keyOf);
      var u :| u in after && keyOf(u) == k;
      assert u == v;
    }
  }

  ghost predicate SyncedRoom(before: Room, after: Room, target: Target, keyOf: UserId -> Key, reported: bool) {
    IsSynced(before, after, target, keyOf) && (reported <==> after != before)
  }

  /** The rooms in `done` have been synced, with the changed ones reported; the others are as before. */
  ghost predicate SyncedSoFar(before: map<RoomId, Room>, now: map<RoomId, Room>, done: set<RoomId>, events: seq<RoomId>,
                              target: Target, keyOf: UserId -> Key)
  {
    && now.Keys == before.Keys
    && (forall r :: r in events ==> r in done)
    && (forall r :: r in done ==> r in before && SyncedRoom(before[r], now[r], target, keyOf, r in events))
    && (forall r :: r in before && r !in done ==> now[r] == before[r])
  }

  lemma SyncedSoFarNext(before: map<RoomId, Room>, now: map<RoomId, Room>, after: map<RoomId, Room>, done: set<RoomId>,
                        events: seq<RoomId>, chat: RoomId, changed: bool, target: Target, keyOf: UserId -> Key)
    requires SyncedSoFar(before, now, done, events, target, keyOf) && chat in before && chat !in done
    requires after.Keys == now.Keys && after == now[chat := after[chat]]
    requires IsSynced(before[chat], after[chat], target, keyOf) && (changed <==> after[chat] != before[chat])
    ensures SyncedSoFar(before, after, done + {chat}, if changed then events + [chat] else events, target, keyOf)
  {
    var reported := if changed then events + [chat] else events;
    assert forall r | r != chat :: r in reported <==> r in events;
    assert chat in reported <==> changed;
    forall r | r in done + {chat} ensures r in before && SyncedRoom(before[r], after[r], target, keyOf, r in reported) {
      assert r != chat ==> after[r] == now[r] && SyncedRoom(before[r], now[r], target, keyOf, r in events);
    }
  }

  /** A sync that adds or removes somebody changes the staff. */
  lemma SyncedChanges(room: Room, index: map<Key, UserId>, target: Target, keyOf: UserId -> Key)
    requires IsIndex(index, room.staff, keyOf)
    ensures Synced(room, index, target).staff == room.staff <==> Synced(room, index, target) == room
    ensures Synced(room, index, target) == room <==> ToAdd(room, index, target.desired) == {} && ToRemove(index, target) == {}
  {
    var add, remove := ToAdd(room, index, target.desired), ToRemove(index, target);
    if add != {} {
      var u :| u in add;
      assert u in Synced(room, index, target).staff && u !in room.staff;
    } else if remove != {} {
      var u :| u in remove;
      assert u in room.staff && u !in Synced(room, index, target).staff;
    }
  }

  /**
   While the staff stay as they are no flag changes. Otherwise everybody asked for who is now in the room is hidden
   as the target says, who went carries no flag, and all others keep theirs.
   */
  lemma HideFlagsAfter(room: Room, index: map<Key, UserId>, target: Target, keyOf: UserId -> Key, u: UserId)
    requires IsIndex(index, room.staff, keyOf)
    ensures var after := Synced(room, index, target);
      if after.staff == room.staff then after == room
      else u in after.hidden <==>
        if u in after.staff && u in target.desired.Values then u in target.hidden
        else u in room.hidden && (u in room.staff ==> u in after.staff)
  {
    SyncedChanges(room, index, target, keyOf);
    var remove := ToRemove(index, target);
    assert remove * target.desired.Values == {} && remove <= room.staff;
    assert ToAdd(room, index, target.desired) !! room.staff;
  }

  // ---------------------------------------------------------------- the methods

  /**
   The staff a request asks for, then the administrators that are added on their own. `employees` is the
   database by external id, without the ids that name several users.
   */
  method ResolveLoadChatStaffParticipants(participants: seq<Request>, employees: map<Key, UserId>, ambiguous: set<Key>,
                                          admins: seq<UserId>, keyOf: UserId -> Key)
    returns (target: Option<Target>)
    requires UnderOwnKey(employees, keyOf)
    ensures target.None? <==> exists p :: p in participants && !p.isDriver && p.id != "" && p.id in ambiguous
    ensures target.Some? ==> UnderOwnKey(target.value.desired, keyOf)
    ensures target.Some? ==> forall k :: k in target.value.unresolved <==>
      k != "" && k !in employees && Request(k, false) in participants
    ensures target.Some? ==> forall k :: k in target.value.desired <==>
      (k != "" && k in employees && Request(k, false) in participants) || exists a :: a in admins && keyOf(a) == k
    ensures target.Some? ==> forall k :: k in employees && k != "" && Request(k, false) in participants ==>
      target.value.desired[k] == employees[k]
    ensures target.Some? ==> target.value.hidden <= target.value.desired.Values
    ensures target.Some? ==> forall k :: k in target.value.desired ==>
      (target.value.desired[k] in target.value.hidden <==> !(k != "" && k in employees && Request(k, false) in participants))
  {
    var desired: map<Key, UserId> := map[];
    var unresolved: set<Key> := {};
    var i := 0;
    while i < |participants|
      invariant 0 <= i <= |participants|
      invariant forall p :: p in participants[..i] && !p.isDriver && p.id != "" ==> p.id !in ambiguous
      invariant UnderOwnKey(desired, keyOf)
      invariant forall k :: k in unresolved <==> k != "" && k !in employees && Request(k, false) in participants[..i]
      invariant forall k :: k in desired <==> k != "" && k in employees && Request(k, false) in participants[..i]
      invariant forall k :: k in desired ==> desired[k] == employees[k]
    {
      var p := participants[i];
      assert participants[..i + 1] == participants[..i] + [p];
      assert p == Request(p.id, p.isDriver);
      if !p.isDriver && p.id != "" {
        if p.id in ambiguous {
          return None;
        }
        if p.id !in desired {
          if p.id in employees {
            desired := desired[p.id := employees[p.id]];
          } else {
            unresolved := unresolved + {p.id};
          }
        }
      }
      i := i + 1;
    }
    assert participants[..i] == participants;
    ghost var asked := desired;
    var hidden: set<UserId> := {};
    var j := 0;
    while j < |admins|
      invariant 0 <= j <= |admins|
      invariant UnderOwnKey(desired, keyOf)
      invariant forall k :: k in desired <==> k in asked || exists a :: a in admins[..j] && keyOf(a) == k
      invariant forall k :: k in asked ==> k in desired && desired[k] == asked[k]
      invariant forall a :: a in hidden ==> keyOf(a) in desired && desired[keyOf(a)] == a
      invariant forall k :: k in desired ==> (desired[k] in hidden <==> k !in asked)
    {
      var a := admins[j];
      assert admins[..j + 1] == admins[..j] + [a];
      if keyOf(a) !in desired {
        desired := desired[keyOf(a) := a];
        hidden := hidden + {a};
      }
      j := j + 1;
    }
    assert admins[..j] == admins;
    return Some(Target(desired, hidden, unresolved));
  }

  /** The first staff member met under each key. */
  method IndexByKey(order: seq<UserId>, keyOf: UserId -> Key) returns (index: map<Key, UserId>)
    ensures IsIndex(index, (set u | u in order), keyOf)
  {
    index := map[];
    var i := 0;
    while i < |order|
      invariant 0 <= i <= |order|
      invariant forall k :: k in index ==> index[k] in order[..i] && keyOf(index[k]) == k
      invariant forall u :: u in order[..i] ==> keyOf(u) in index
    {
      assert order[..i + 1] == order[..i] + [order[i]];
      var key := keyOf(order[i]);
      if key !in index {
        index := index[key := order[i]];
      }
      i := i + 1;
    }
    assert order[..i] == order;
    var staff := set u | u in order;
    assert forall k :: k in index ==> index[k] in staff && keyOf(index[k]) == k;
    assert index.Keys == KeysOf(staff, keyOf);
  }

  class LoadChatRooms {
    /** The LOAD rooms of one load. */
    var rooms: map<RoomId, Room>

    /** One room: who is missing is added, who should go is removed, and then the hide flags are rewritten. */
    method SyncRoom(chat: RoomId, order: seq<UserId>, target: Target, keyOf: UserId -> Key) returns (changed: bool)
      requires chat in rooms && rooms[chat].staff == set u | u in order
      modifies this
      ensures rooms.Keys == old(rooms).Keys && rooms == old(rooms)[chat := rooms[chat]]
      ensures IsSynced(old(rooms)[chat], rooms[chat], target, keyOf)
      ensures changed <==> rooms[chat] != old(rooms)[chat]
    {
      var room := rooms[chat];
      var index := IndexByKey(order, keyOf);
      assert IsIndex(index, room.staff, keyOf);
      SyncedChanges(room, index, target, keyOf);
      var toAdd := ToAdd(room, index, target.desired);
      var toRemove := ToRemove(index, target);
      if toAdd == {} && toRemove == {} {
        assert rooms[chat] == Synced(room, index, target);
        return false;
      }
      var staff := room.staff - toRemove;
      staff := staff + toAdd;
      var retained := target.desired.Values * room.staff;
      var hidden := room.hidden - toRemove - (toAdd + retained) + target.hidden * (toAdd + retained);
      rooms := rooms[chat := Room(room.drivers, staff, hidden)];
      assert rooms[chat] == Synced(room, index, target);
      return true;
    }

    /**
     Room after room; `order` is the order in which the database returned each room's staff rows. A room that
     needs no change is passed over.
     */
    method SyncNonDriverParticipantsForLoad(chats: seq<RoomId>, order: map<RoomId, seq<UserId>>, target: Target,
                                            keyOf: UserId -> Key)
      returns (events: seq<RoomId>)
      requires forall r :: r in chats <==> r in rooms
      requires forall i, j :: 0 <= i < j < |chats| ==> chats[i] != chats[j]
      requires forall r :: r in rooms ==> r in order && rooms[r].staff == set u | u in order[r]
      modifies this
      ensures rooms.Keys == old(rooms).Keys
      ensures forall r :: r in rooms ==> IsSynced(old(rooms)[r], rooms[r], target, keyOf)
      ensures forall r :: r in events <==> r in rooms && rooms[r] != old(rooms)[r]
    {
      events := [];
      ghost var done: set<RoomId> := {};
      var i := 0;
      while i < |chats|
        invariant 0 <= i <= |chats|
        invariant forall j :: 0 <= j < |chats| ==> (chats[j] in done <==> j < i)
        invariant SyncedSoFar(old(rooms), rooms, done, events, target, keyOf)
      {
        ghost var before := rooms;
        var chat := chats[i];
        var changed := SyncRoom(chat, order[chat], target, keyOf);
        SyncedSoFarNext(old(rooms), before, rooms, done, events, chat, changed, target, keyOf);
        if changed {
          events := events + [chat];
        }
        done := done + {chat};
        i := i + 1;
      }
    }
  }
}
