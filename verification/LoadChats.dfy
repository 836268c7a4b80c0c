/**
 LOAD chats: one room per load and driver. Creating, converting an OFFER room and forking run as transactions
 that take an advisory lock for (load, driver), look for an existing room and then write; attaching a driver in
 place reads the room, looks for another one and then writes, with no lock at all. Each of these is a step of its
 own, so everything can come in between.
 */
module LoadChats {
  import opened Options

  type UserId = string
  type RoomId = nat
  type LoadId = string
  type TxId = nat

  datatype Kind = LoadRoom | OfferRoom | OtherRoom

  datatype Room = Room(kind: Kind, loadId: Option<LoadId>, isArchived: bool, participants: set<UserId>)

  datatype Purpose = Create | Convert(offerRoom: RoomId) | Fork

  /** How far a transaction is: not yet in, holding the lock, or past the look for an existing room. */
  datatype Stage = Waiting | Locked | Clear

  /** `desired` are the participants the room is to have; `drop` are OFFER rooms removed along the way. */
  datatype Tx = Tx(purpose: Purpose, load: LoadId, driver: UserId, desired: set<UserId>, drop: set<RoomId>, stage: Stage)

  /** An attach that has read its room and found no driver in it; `looked` if it has found no other room either. */
  datatype Attach = Attach(room: RoomId, driver: UserId, load: Option<LoadId>, looked: bool)

  datatype System = System(drivers: set<UserId>, rooms: map<RoomId, Room>, txs: map<TxId, Tx>, attaches: map<TxId, Attach>)

  datatype Action =
    | Begin(id: TxId, tx: Tx)
    | Acquire(id: TxId)
    | Look(id: TxId)
    | Write(id: TxId, newRoom: RoomId)
    | AttachRead(id: TxId, room: RoomId, driver: UserId)
    | AttachLook(id: TxId)
    | AttachWrite(id: TxId)
    | AddStaff(room: RoomId, user: UserId)
    | RemoveParticipant(room: RoomId, user: UserId)
    | ArchiveRoom(room: RoomId)
    | DeleteRoom(room: RoomId)

  // ---------------------------------------------------------------- steps

  predicate Holds(tx: Tx, load: LoadId, driver: UserId) {
    tx.stage != Waiting && tx.load == load && tx.driver == driver
  }

  predicate Held(s: System, load: LoadId, driver: UserId) {
    exists t | t in s.txs :: Holds(s.txs[t], load, driver)
  }

  /** The query for a LOAD room of this load with this driver; a fork only wants live rooms. */
  predicate Matches(room: Room, load: LoadId, driver: UserId, liveOnly: bool) {
    && room.kind == LoadRoom && room.loadId == Some(load) && driver in room.participants
    && (liveOnly ==> !room.isArchived)
  }

  predicate Exists(rooms: map<RoomId, Room>, load: LoadId, driver: UserId, liveOnly: bool) {
    exists r | r in rooms :: Matches(rooms[r], load, driver, liveOnly)
  }

  predicate HasDriver(s: System, room: Room) {
    exists u | u in room.participants :: u in s.drivers
  }

  predicate Allowed(s: System, a: Action) {
    match a
    case Begin(t, tx) => t !in s.txs && tx.stage == Waiting && tx.driver in s.drivers && tx.desired * s.drivers == {tx.driver}
    case Acquire(t) => t in s.txs && s.txs[t].stage == Waiting && !Held(s, s.txs[t].load, s.txs[t].driver)
    case Look(t) => t in s.txs && s.txs[t].stage == Locked
    case Write(t, r) => t in s.txs && s.txs[t].stage == Clear && r !in s.rooms
    case AttachRead(i, r, d) => i !in s.attaches && r in s.rooms && s.rooms[r].kind == LoadRoom && d in s.drivers
    case AttachLook(i) => i in s.attaches && !s.attaches[i].looked
    case AttachWrite(i) => i in s.attaches && s.attaches[i].looked
    case AddStaff(r, u) => r in s.rooms && u !in s.drivers
    case RemoveParticipant(r, _) => r in s.rooms
    case ArchiveRoom(r) => r in s.rooms
    case DeleteRoom(r) => r in s.rooms
  }

  function AfterLook(s: System, t: TxId): System
    requires t in s.txs
  {
    var tx := s.txs[t];
    if Exists(s.rooms, tx.load, tx.driver, tx.purpose.Fork?)
    then s.(txs := s.txs - {t})
    else s.(txs := s.txs[t := tx.(stage := Clear)])
  }

  /** A conversion whose room has gone meanwhile fails and writes nothing. */
  function Written(rooms: map<RoomId, Room>, tx: Tx, newRoom: RoomId): map<RoomId, Room> {
    match tx.purpose
    case Convert(r) =>
      if r in rooms then (rooms - (tx.drop - {r}))[r := rooms[r].(kind := LoadRoom, loadId := Some(tx.load), participants := tx.desired)]
      else rooms
    case _ => (rooms - tx.drop)[newRoom := Room(LoadRoom, Some(tx.load), false, tx.desired)]
  }

  /** A room with a driver is forked instead, by a transaction of its own. */
  function AfterAttachRead(s: System, i: TxId, r: RoomId, d: UserId): System
    requires r in s.rooms
  {
    if HasDriver(s, s.rooms[r]) then s
    else s.(attaches := s.attaches[i := Attach(r, d, s.rooms[r].loadId, false)])
  }

  /** Another live room of the load with this driver. */
  predicate OtherRoom(rooms: map<RoomId, Room>, r: RoomId, load: LoadId, d: UserId) {
    exists q | q in rooms :: q != r && Matches(rooms[q], load, d, true)
  }

  /** If the driver has another room already, that one is reported and nothing is attached. */
  function AfterAttachLook(s: System, i: TxId): System
    requires i in s.attaches
  {
    var at := s.attaches[i];
    if at.load.Some? && OtherRoom(s.rooms, at.room, at.load.value, at.driver)
    then s.(attaches := s.attaches - {i})
    else s.(attaches := s.attaches[i := at.(looked := true)])
  }

  /** The participant row can be made: the room is there and the driver is not in it. */
  predicate TakesEffect(s: System, at: Attach) {
    at.room in s.rooms && at.driver !in s.rooms[at.room].participants
  }

  function WithDriver(rooms: map<RoomId, Room>, r: RoomId, d: UserId): map<RoomId, Room>
    requires r in rooms
  {
    rooms[r := rooms[r].(participants := rooms[r].participants + {d})]
  }

  function AfterAttachWrite(s: System, i: TxId): System
    requires i in s.attaches
  {
    var at := s.attaches[i];
    if TakesEffect(s, at)
    then s.(rooms := WithDriver(s.rooms, at.room, at.driver), attaches := s.attaches - {i})
    else s.(attaches := s.attaches - {i})
  }

  function Do(s: System, a: Action): System
    requires Allowed(s, a)
  {
    match a
    case Begin(t, tx) => s.(txs := s.txs[t := tx])
    case Acquire(t) => s.(txs := s.txs[t := s.txs[t].(stage := Locked)])
    case Look(t) => AfterLook(s, t)
    case Write(t, r) => s.(rooms := Written(s.rooms, s.txs[t], r), txs := s.txs - {t})
    case AttachRead(i, r, d) => AfterAttachRead(s, i, r, d)
    case AttachLook(i) => AfterAttachLook(s, i)
    case AttachWrite(i) => AfterAttachWrite(s, i)
    case AddStaff(r, u) => s.(rooms := s.rooms[r := s.rooms[r].(participants := s.rooms[r].participants + {u})])
    case RemoveParticipant(r, u) => s.(rooms := s.rooms[r := s.rooms[r].(participants := s.rooms[r].participants - {u})])
    case ArchiveRoom(r) => s.(rooms := s.rooms[r := s.rooms[r].(isArchived := true)])
    case DeleteRoom(r) => s.(rooms := s.rooms - {r})
  }

  // ---------------------------------------------------------------- the invariant

  predicate OneDriver(s: System) {
    forall r | r in s.rooms && s.rooms[r].kind == LoadRoom ::
      forall d, e | d in s.rooms[r].participants && e in s.rooms[r].participants && d in s.drivers && e in s.drivers :: d == e
  }

  /** No two live LOAD rooms share a load and a driver. */
  ghost predicate OneRoom(s: System) {
    forall r, q, load, d | r in s.rooms && q in s.rooms && d in s.drivers
        && Matches(s.rooms[r], load, d, true) && Matches(s.rooms[q], load, d, true) :: r == q
  }

  predicate Exclusive(s: System) {
    forall t, u | t in s.txs && u in s.txs && Holds(s.txs[t], s.txs[u].load, s.txs[u].driver) && s.txs[u].stage != Waiting :: t == u
  }

  /** A transaction past its look still has nothing to collide with. */
  predicate ClearIsClear(s: System) {
    forall t | t in s.txs ::
      && s.txs[t].driver in s.drivers && s.txs[t].desired * s.drivers == {s.txs[t].driver}
      && (s.txs[t].stage == Clear ==> !Exists(s.rooms, s.txs[t].load, s.txs[t].driver, true))
  }

  predicate AttachesOfDrivers(s: System) {
    forall i | i in s.attaches :: s.attaches[i].driver in s.drivers
  }

  ghost predicate Inv(s: System) {
    OneDriver(s) && OneRoom(s) && Exclusive(s) && ClearIsClear(s) && AttachesOfDrivers(s)
  }

  /** Some transaction of this load and driver has looked and is about to write. */
  predicate ClearFor(s: System, load: LoadId, d: UserId) {
    exists t | t in s.txs :: s.txs[t].stage == Clear && s.txs[t].load == load && s.txs[t].driver == d
  }

  /** What the attach has read is still so when it writes, and no transaction of its pair is about to write. */
  predicate StillGood(s: System, at: Attach) {
    TakesEffect(s, at) && s.rooms[at.room].kind == LoadRoom ==>
      var room := s.rooms[at.room];
      && !HasDriver(s, room)
      && (!room.isArchived && room.loadId.Some? ==>
            !OtherRoom(s.rooms, at.room, room.loadId.value, at.driver) && !ClearFor(s, room.loadId.value, at.driver))
  }

  predicate Safe(s: System, a: Action)
    requires Allowed(s, a)
  {
    a.AttachWrite? ==> StillGood(s, s.attaches[a.id])
  }

  // ---------------------------------------------------------------- what each step keeps

  /** Losing rooms, participants other than staff gained, or archiving, cannot make a live match. */
  lemma FewerMatches(s: System, t: System)
    requires Inv(s) && t.drivers == s.drivers && t.txs == s.txs && t.attaches == s.attaches && OneDriver(t)
    requires forall r, load, d | r in t.rooms && d in s.drivers && Matches(t.rooms[r], load, d, true) ::
      r in s.rooms && Matches(s.rooms[r], load, d, true)
    ensures Inv(t)
  {
  }

  lemma WrittenMatches(s: System, id: TxId, newRoom: RoomId, r: RoomId, load: LoadId, d: UserId)
    requires Inv(s) && Allowed(s, Write(id, newRoom))
    requires d in s.drivers && r in Written(s.rooms, s.txs[id], newRoom)
    requires Matches(Written(s.rooms, s.txs[id], newRoom)[r], load, d, true)
    ensures var tx := s.txs[id];
      if r in s.rooms && s.rooms[r] == Written(s.rooms, tx, newRoom)[r] then Matches(s.rooms[r], load, d, true)
      else load == tx.load && d == tx.driver && r == (if tx.purpose.Convert? then tx.purpose.offerRoom else newRoom)
  {
    var tx := s.txs[id];
    assert d in tx.desired ==> d in tx.desired * s.drivers;
  }

  lemma WriteKeepsRooms(s: System, id: TxId, newRoom: RoomId)
    requires Inv(s) && Allowed(s, Write(id, newRoom))
    ensures OneDriver(Do(s, Write(id, newRoom))) && OneRoom(Do(s, Write(id, newRoom)))
  {
    var t := Do(s, Write(id, newRoom));
    var tx := s.txs[id];
    forall r | r in t.rooms && t.rooms[r].kind == LoadRoom
      ensures forall d, e | d in t.rooms[r].participants && e in t.rooms[r].participants && d in s.drivers && e in s.drivers :: d == e
    {
      if r !in s.rooms || t.rooms[r] != s.rooms[r] {
        assert t.rooms[r].participants == tx.desired;
        assert forall d | d in tx.desired && d in s.drivers :: d in tx.desired * s.drivers;
      }
    }
    forall r, q, load, d | r in t.rooms && q in t.rooms && d in s.drivers
        && Matches(t.rooms[r], load, d, true) && Matches(t.rooms[q], load, d, true)
      ensures r == q
    {
      WrittenMatches(s, id, newRoom, r, load, d);
      WrittenMatches(s, id, newRoom, q, load, d);
    }
  }

  lemma WriteKeepsClear(s: System, id: TxId, newRoom: RoomId)
    requires Inv(s) && Allowed(s, Write(id, newRoom))
    ensures ClearIsClear(Do(s, Write(id, newRoom)))
  {
    var t := Do(s, Write(id, newRoom));
    forall u | u in t.txs && t.txs[u].stage == Clear
      ensures !Exists(t.rooms, t.txs[u].load, t.txs[u].driver, true)
    {
      var load, d := s.txs[u].load, s.txs[u].driver;
      // Another lock holder has another pair, and nothing matched its pair before the write.
      assert !Holds(s.txs[id], load, d);
      assert !Exists(s.rooms, load, d, true);
      forall r | r in t.rooms ensures !Matches(t.rooms[r], load, d, true) {
        if Matches(t.rooms[r], load, d, true) {
          WrittenMatches(s, id, newRoom, r, load, d);
        }
      }
    }
  }

  lemma AttachKeeps(s: System, i: TxId)
    requires Inv(s) && Allowed(s, AttachWrite(i)) && StillGood(s, s.attaches[i])
    ensures Inv(AfterAttachWrite(s, i))
  {
    var at := s.attaches[i];
    if TakesEffect(s, at) {
      var t := AfterAttachWrite(s, i);
      forall q, load, e | q in t.rooms && e in s.drivers && Matches(t.rooms[q], load, e, true)
        ensures Matches(s.rooms[q], load, e, true)
          || (q == at.room && e == at.driver && s.rooms[q].loadId == Some(load) && !s.rooms[q].isArchived)
      {
      }
      assert OneDriver(t) && OneRoom(t);
    }
  }

  /** An attach whose reads no longer hold, or that overtakes a transaction of its pair, does damage. */
  lemma AttachBreaks(s: System, i: TxId)
    requires Inv(s) && Allowed(s, AttachWrite(i)) && !StillGood(s, s.attaches[i])
    ensures !Inv(AfterAttachWrite(s, i))
  {
    var at := s.attaches[i];
    var t := AfterAttachWrite(s, i);
    var room := s.rooms[at.room];
    assert at.driver in t.rooms[at.room].participants && t.rooms[at.room].kind == LoadRoom;
    if HasDriver(s, room) {
      var e :| e in room.participants && e in s.drivers;
      assert e in t.rooms[at.room].participants && e != at.driver;
      assert !OneDriver(t);
    } else {
      var load := room.loadId.value;
      assert Matches(t.rooms[at.room], load, at.driver, true);
      if OtherRoom(s.rooms, at.room, load, at.driver) {
        var q :| q in s.rooms && q != at.room && Matches(s.rooms[q], load, at.driver, true);
        assert Matches(t.rooms[q], load, at.driver, true);
      } else {
        var u :| u in s.txs && s.txs[u].stage == Clear && s.txs[u].load == load && s.txs[u].driver == at.driver;
        assert u in t.txs && Exists(t.rooms, load, at.driver, true);
      }
    }
  }

  lemma OtherStepKeeps(s: System, a: Action)
    requires Inv(s) && Allowed(s, a) && !a.AttachWrite?
    ensures Inv(Do(s, a))
  {
    match a {
      case Begin(t, tx) =>
      case Acquire(t) =>
        AcquireKeeps(s, t);
      case Look(t) =>
        LookKeeps(s, t);
      case Write(t, r) =>
        WriteKeepsRooms(s, t, r);
        WriteKeepsClear(s, t, r);
      case AttachRead(i, r, d) =>
      case AttachLook(i) =>
      case AddStaff(r, u) =>
        FewerMatches(s, Do(s, a));
      case RemoveParticipant(r, u) =>
        FewerMatches(s, Do(s, a));
      case ArchiveRoom(r) =>
        FewerMatches(s, Do(s, a));
      case DeleteRoom(r) =>
        FewerMatches(s, Do(s, a));
    }
  }

  /** Only the write of an attach can break the invariant, and it does exactly when it is not safe. */
  lemma StepKeepsExactlyWhen(s: System, a: Action)
    requires Inv(s) && Allowed(s, a)
    ensures Inv(Do(s, a)) <==> Safe(s, a)
  {
    if a.AttachWrite? {
      if Safe(s, a) {
        AttachKeeps(s, a.id);
      } else {
        AttachBreaks(s, a.id);
      }
    } else {
      OtherStepKeeps(s, a);
    }
  }

  lemma AcquireKeeps(s: System, t: TxId)
    requires Inv(s) && Allowed(s, Acquire(t))
    ensures Inv(Do(s, Acquire(t)))
  {
    var after := Do(s, Acquire(t));
    forall u, v | u in after.txs && v in after.txs && after.txs[v].stage != Waiting
        && Holds(after.txs[u], after.txs[v].load, after.txs[v].driver)
      ensures u == v
    {
      if u != v {
        assert u == t || v == t ==> Held(s, s.txs[t].load, s.txs[t].driver);
      }
    }
  }

  lemma LookKeeps(s: System, t: TxId)
    requires Inv(s) && Allowed(s, Look(t))
    ensures Inv(Do(s, Look(t)))
  {
    var tx := s.txs[t];
    assert Exists(s.rooms, tx.load, tx.driver, true) ==> Exists(s.rooms, tx.load, tx.driver, false);
  }

  // ---------------------------------------------------------------- runs

  predicate Possible(s: System, actions: seq<Action>)
    decreases |actions|
  {
    actions == [] || (Allowed(s, actions[0]) && Possible(Do(s, actions[0]), actions[1..]))
  }

  predicate AllSafe(s: System, actions: seq<Action>)
    requires Possible(s, actions)
    decreases |actions|
  {
    actions == [] || (Safe(s, actions[0]) && AllSafe(Do(s, actions[0]), actions[1..]))
  }

  /** The invariant holds in every state the run passes. */
  ghost predicate AlwaysInv(s: System, actions: seq<Action>)
    requires Possible(s, actions)
    decreases |actions|
  {
    Inv(s) && (actions == [] || AlwaysInv(Do(s, actions[0]), actions[1..]))
  }

  function DoAll(s: System, actions: seq<Action>): System
    requires Possible(s, actions)
    decreases |actions|
  {
    if actions == [] then s else DoAll(Do(s, actions[0]), actions[1..])
  }

  /**
   Under every interleaving: throughout a run a LOAD room has at most one driver, no two live LOAD rooms share a
   load and a driver, and no transaction is about to make them, if and only if every attach is safe when it writes.
   */
  lemma {:induction false} OneRoomPerLoadAndDriver(s: System, actions: seq<Action>)
    requires Inv(s) && Possible(s, actions)
    ensures AlwaysInv(s, actions) <==> AllSafe(s, actions)
    decreases |actions|
  {
    if actions != [] {
      StepKeepsExactlyWhen(s, actions[0]);
      if Safe(s, actions[0]) {
        OneRoomPerLoadAndDriver(Do(s, actions[0]), actions[1..]);
      }
    }
  }

  /** In particular every run without attaches keeps it. */
  lemma {:induction false} WithoutAttaches(s: System, actions: seq<Action>)
    requires Inv(s) && Possible(s, actions) && forall i | 0 <= i < |actions| :: !actions[i].AttachWrite?
    ensures Inv(DoAll(s, actions))
    decreases |actions|
  {
    if actions != [] {
      OtherStepKeeps(s, actions[0]);
      assert forall i | 0 <= i < |actions| - 1 :: actions[1..][i] == actions[i + 1];
      WithoutAttaches(Do(s, actions[0]), actions[1..]);
    }
  }

  lemma NoRoomsIsFine(drivers: set<UserId>)
    ensures Inv(System(drivers, map[], map[], map[]))
  {
  }

  /** A transaction that writes leaves exactly one live room for its pair, unless a conversion lost its room. */
  lemma WriteMakesTheRoom(s: System, id: TxId, newRoom: RoomId)
    requires Inv(s) && Allowed(s, Write(id, newRoom))
    requires s.txs[id].purpose.Convert? ==>
      s.txs[id].purpose.offerRoom in s.rooms && !s.rooms[s.txs[id].purpose.offerRoom].isArchived
    ensures var tx := s.txs[id]; var r := if tx.purpose.Convert? then tx.purpose.offerRoom else newRoom;
      forall q :: q in Do(s, Write(id, newRoom)).rooms && Matches(Do(s, Write(id, newRoom)).rooms[q], tx.load, tx.driver, true)
        <==> q == r
  {
    var tx := s.txs[id];
    var r := if tx.purpose.Convert? then tx.purpose.offerRoom else newRoom;
    var t := Do(s, Write(id, newRoom));
    assert tx.driver in tx.desired * s.drivers;
    assert Matches(t.rooms[r], tx.load, tx.driver, true);
    WriteKeepsRooms(s, id, newRoom);
  }

  // ---------------------------------------------------------------- attaches that do damage

  lemma {:induction false} DoAppend(s: System, actions: seq<Action>, a: Action)
    requires Possible(s, actions) && Allowed(DoAll(s, actions), a)
    ensures Possible(s, actions + [a]) && DoAll(s, actions + [a]) == Do(DoAll(s, actions), a)
    decreases |actions|
  {
    if actions == [] {
      assert (actions + [a])[1..] == [];
    } else {
      assert (actions + [a])[1..] == actions[1..] + [a];
      DoAppend(Do(s, actions[0]), actions[1..], a);
    }
  }

  /** The three steps of an attach with nothing in between. */
  function AttachedAtOnce(s: System, i: TxId, r: RoomId, d: UserId): System
    requires Allowed(s, AttachRead(i, r, d))
  {
    var s1 := Do(s, AttachRead(i, r, d));
    if i !in s1.attaches then s1
    else
      var s2 := Do(s1, AttachLook(i));
      if i !in s2.attaches then s2 else Do(s2, AttachWrite(i))
  }

  /**
   An attach with nothing in between breaks the invariant if and only if it takes effect, on a live room with a
   load, while some transaction of that load and driver has looked and not yet written.
   */
  lemma AttachAtOnceBreaksExactlyWhen(s: System, i: TxId, r: RoomId, d: UserId)
    requires Inv(s) && Allowed(s, AttachRead(i, r, d))
    ensures !Inv(AttachedAtOnce(s, i, r, d)) <==>
      && AttachedAtOnce(s, i, r, d).rooms != s.rooms
      && !s.rooms[r].isArchived && s.rooms[r].loadId.Some? && ClearFor(s, s.rooms[r].loadId.value, d)
  {
    var s1 := Do(s, AttachRead(i, r, d));
    OtherStepKeeps(s, AttachRead(i, r, d));
    if i in s1.attaches {
      var s2 := Do(s1, AttachLook(i));
      OtherStepKeeps(s1, AttachLook(i));
      if i in s2.attaches {
        StepKeepsExactlyWhen(s2, AttachWrite(i));
        assert d !in s.rooms[r].participants;
        assert d in AfterAttachWrite(s2, i).rooms[r].participants;
        assert s2.rooms == s.rooms && s2.txs == s.txs && s2.drivers == s.drivers;
        assert HasDriver(s2, s2.rooms[r]) == HasDriver(s, s.rooms[r]);
        assert s.rooms[r].loadId.Some? ==> ClearFor(s2, s.rooms[r].loadId.value, d) == ClearFor(s, s.rooms[r].loadId.value, d);
      }
    }
  }

  /** The room a transaction writes. */
  function TargetOf(tx: Tx, newRoom: RoomId): RoomId {
    if tx.purpose.Convert? then tx.purpose.offerRoom else newRoom
  }

  /**
   Whenever such an attach writes first, the write of the transaction leaves two live rooms of one load and driver:
   for a creation or a fork in any new room, for a conversion in its OFFER room.
   */
  lemma WriteAfterAttachDuplicates(s: System, i: TxId, t: TxId, newRoom: RoomId)
    requires Inv(s) && Allowed(s, AttachWrite(i)) && Allowed(s, Write(t, newRoom)) && TakesEffect(s, s.attaches[i])
    requires var room := s.rooms[s.attaches[i].room]; var tx := s.txs[t];
      && room.kind == LoadRoom && !room.isArchived && room.loadId == Some(tx.load) && s.attaches[i].driver == tx.driver
    requires var tx := s.txs[t]; var target := TargetOf(tx, newRoom);
      && s.attaches[i].room !in tx.drop && target != s.attaches[i].room
      && (tx.purpose.Convert? ==> target in s.rooms && !s.rooms[target].isArchived)
    ensures var tx := s.txs[t]; var rooms := Do(Do(s, AttachWrite(i)), Write(t, newRoom)).rooms;
      var r, target := s.attaches[i].room, TargetOf(tx, newRoom);
      && r != target && r in rooms && target in rooms
      && Matches(rooms[r], tx.load, tx.driver, true) && Matches(rooms[target], tx.load, tx.driver, true)
  {
    var tx := s.txs[t];
    assert tx.driver in tx.desired * s.drivers;
    var s1 := Do(s, AttachWrite(i));
    assert s1.txs[t] == tx && Matches(s1.rooms[s.attaches[i].room], tx.load, tx.driver, true);
  }

  /** An attach that has read a driverless room and found no other one. */
  lemma Looked(s: System, i: TxId, r: RoomId, d: UserId) returns (t: System)
    requires Allowed(s, AttachRead(i, r, d)) && !HasDriver(s, s.rooms[r])
    requires s.rooms[r].loadId.Some? ==> !OtherRoom(s.rooms, r, s.rooms[r].loadId.value, d)
    ensures Allowed(Do(s, AttachRead(i, r, d)), AttachLook(i))
    ensures t == Do(Do(s, AttachRead(i, r, d)), AttachLook(i))
    ensures t == s.(attaches := s.attaches[i := Attach(r, d, s.rooms[r].loadId, true)])
  {
    var s1 := Do(s, AttachRead(i, r, d));
    t := Do(s1, AttachLook(i));
  }

  function Reading(i: TxId, r: RoomId, d: UserId): seq<Action> {
    [AttachRead(i, r, d), AttachLook(i)]
  }

  function TwoAttaches(i: TxId, r: RoomId, d: UserId, j: TxId, q: RoomId, e: UserId): seq<Action> {
    Reading(i, r, d) + Reading(j, q, e) + [AttachWrite(i), AttachWrite(j)]
  }

  lemma ReadingLooks(s: System, i: TxId, r: RoomId, d: UserId)
    requires Allowed(s, AttachRead(i, r, d)) && !HasDriver(s, s.rooms[r])
    requires s.rooms[r].loadId.Some? ==> !OtherRoom(s.rooms, r, s.rooms[r].loadId.value, d)
    ensures Possible(s, Reading(i, r, d))
    ensures DoAll(s, Reading(i, r, d)) == s.(attaches := s.attaches[i := Attach(r, d, s.rooms[r].loadId, true)])
  {
    var t := Looked(s, i, r, d);
    DoAppend(s, [], AttachRead(i, r, d));
    DoAppend(s, [] + [AttachRead(i, r, d)], AttachLook(i));
    assert Reading(i, r, d) == [] + [AttachRead(i, r, d)] + [AttachLook(i)];
  }

  lemma BothWrite(s: System, i: TxId, j: TxId)
    requires i != j && i in s.attaches && j in s.attaches && s.attaches[i].looked && s.attaches[j].looked
    requires TakesEffect(s, s.attaches[i]) && TakesEffect(s, s.attaches[j])
    requires s.attaches[i].room != s.attaches[j].room || s.attaches[i].driver != s.attaches[j].driver
    ensures Possible(s, [AttachWrite(i), AttachWrite(j)])
    ensures DoAll(s, [AttachWrite(i), AttachWrite(j)]).rooms
      == WithDriver(WithDriver(s.rooms, s.attaches[i].room, s.attaches[i].driver), s.attaches[j].room, s.attaches[j].driver)
  {
    var s1 := Do(s, AttachWrite(i));
    DoAppend(s, [], AttachWrite(i));
    DoAppend(s, [] + [AttachWrite(i)], AttachWrite(j));
    assert [AttachWrite(i), AttachWrite(j)] == [] + [AttachWrite(i)] + [AttachWrite(j)];
    assert TakesEffect(s1, s1.attaches[j]);
  }

  lemma BothAttach(s: System, i: TxId, r: RoomId, d: UserId, j: TxId, q: RoomId, e: UserId)
    requires i != j && (r != q || d != e)
    requires Allowed(s, AttachRead(i, r, d)) && Allowed(s, AttachRead(j, q, e))
    requires !HasDriver(s, s.rooms[r]) && !HasDriver(s, s.rooms[q])
    requires s.rooms[r].loadId.Some? ==> !OtherRoom(s.rooms, r, s.rooms[r].loadId.value, d)
    requires s.rooms[q].loadId.Some? ==> !OtherRoom(s.rooms, q, s.rooms[q].loadId.value, e)
    ensures var actions := TwoAttaches(i, r, d, j, q, e);
      Possible(s, actions) && DoAll(s, actions).rooms == WithDriver(WithDriver(s.rooms, r, d), q, e)
  {
    ReadingLooks(s, i, r, d);
    var s1 := s.(attaches := s.attaches[i := Attach(r, d, s.rooms[r].loadId, true)]);
    assert HasDriver(s1, s1.rooms[q]) == HasDriver(s, s.rooms[q]);
    ReadingLooks(s1, j, q, e);
    DoConcat(s, Reading(i, r, d), Reading(j, q, e));
    var s2 := s1.(attaches := s1.attaches[j := Attach(q, e, s.rooms[q].loadId, true)]);
    assert d !in s.rooms[r].participants && e !in s.rooms[q].participants;
    BothWrite(s2, i, j);
    DoConcat(s, Reading(i, r, d) + Reading(j, q, e), [AttachWrite(i), AttachWrite(j)]);
  }

  /** Two overlapping attaches of different drivers to any driverless LOAD room leave it with two drivers. */
  lemma OverlappingAttachesTwoDrivers(s: System, i: TxId, j: TxId, r: RoomId, d: UserId, e: UserId)
    requires Inv(s) && i != j && d != e
    requires Allowed(s, AttachRead(i, r, d)) && Allowed(s, AttachRead(j, r, e)) && !HasDriver(s, s.rooms[r])
    requires s.rooms[r].loadId.Some? ==>
      !OtherRoom(s.rooms, r, s.rooms[r].loadId.value, d) && !OtherRoom(s.rooms, r, s.rooms[r].loadId.value, e)
    ensures var actions := TwoAttaches(i, r, d, j, r, e);
      && Possible(s, actions) && r in DoAll(s, actions).rooms
      && {d, e} <= DoAll(s, actions).rooms[r].participants && !OneDriver(DoAll(s, actions))
  {
    BothAttach(s, i, r, d, j, r, e);
    DriversStay(s, TwoAttaches(i, r, d, j, r, e));
    var t := DoAll(s, TwoAttaches(i, r, d, j, r, e));
    assert d in t.rooms[r].participants && e in t.rooms[r].participants;
  }

  /** Two overlapping attaches of one driver to two driverless live rooms of a load leave two rooms of that pair. */
  lemma OverlappingAttachesTwoRooms(s: System, i: TxId, j: TxId, r: RoomId, q: RoomId, load: LoadId, d: UserId)
    requires Inv(s) && i != j && r != q
    requires Allowed(s, AttachRead(i, r, d)) && Allowed(s, AttachRead(j, q, d))
    requires !HasDriver(s, s.rooms[r]) && !HasDriver(s, s.rooms[q]) && !Exists(s.rooms, load, d, true)
    requires s.rooms[r].loadId == s.rooms[q].loadId == Some(load) && !s.rooms[r].isArchived && !s.rooms[q].isArchived
    ensures var actions := TwoAttaches(i, r, d, j, q, d);
      && Possible(s, actions) && r in DoAll(s, actions).rooms && q in DoAll(s, actions).rooms
      && Matches(DoAll(s, actions).rooms[r], load, d, true) && Matches(DoAll(s, actions).rooms[q], load, d, true)
  {
    BothAttach(s, i, r, d, j, q, d);
  }

  lemma {:induction false} DriversStay(s: System, actions: seq<Action>)
    requires Possible(s, actions)
    ensures DoAll(s, actions).drivers == s.drivers
    decreases |actions|
  {
    if actions != [] {
      DriversStay(Do(s, actions[0]), actions[1..]);
    }
  }

  lemma {:induction false} DoConcat(s: System, first: seq<Action>, second: seq<Action>)
    requires Possible(s, first) && Possible(DoAll(s, first), second)
    ensures Possible(s, first + second) && DoAll(s, first + second) == DoAll(DoAll(s, first), second)
    decreases |first|
  {
    if first == [] {
      assert first + second == second;
    } else {
      assert (first + second)[1..] == first[1..] + second;
      DoConcat(Do(s, first[0]), first[1..], second);
    }
  }

  function AttachThenWrite(t: TxId, i: TxId, r: RoomId, d: UserId, newRoom: RoomId): seq<Action> {
    [AttachRead(i, r, d), AttachLook(i), AttachWrite(i), Write(t, newRoom)]
  }

  lemma AttachThenWriteDuplicates(s: System, t: TxId, tx: Tx, i: TxId, r: RoomId, newRoom: RoomId)
    requires t in s.txs && s.txs[t] == tx && tx.purpose == Create && tx.stage == Clear && tx.driver in tx.desired
    requires tx.driver in s.drivers && !Exists(s.rooms, tx.load, tx.driver, true) && newRoom !in s.rooms
    requires i !in s.attaches && r in s.rooms && r !in tx.drop && !HasDriver(s, s.rooms[r])
    requires s.rooms[r].kind == LoadRoom && s.rooms[r].loadId == Some(tx.load) && !s.rooms[r].isArchived
    ensures var actions := AttachThenWrite(t, i, r, tx.driver, newRoom);
      && Possible(s, actions)
      && var rooms := DoAll(s, actions).rooms;
         && r in rooms && newRoom in rooms
         && Matches(rooms[r], tx.load, tx.driver, true) && Matches(rooms[newRoom], tx.load, tx.driver, true)
  {
    var d := tx.driver;
    assert d !in s.rooms[r].participants;
    var s2 := Looked(s, i, r, d);
    var s3 := Do(s2, AttachWrite(i));
    var s4 := Do(s3, Write(t, newRoom));
    DoAppend(s, [], AttachRead(i, r, d));
    DoAppend(s, [] + [AttachRead(i, r, d)], AttachLook(i));
    DoAppend(s, [] + [AttachRead(i, r, d)] + [AttachLook(i)], AttachWrite(i));
    DoAppend(s, [] + [AttachRead(i, r, d)] + [AttachLook(i)] + [AttachWrite(i)], Write(t, newRoom));
    assert AttachThenWrite(t, i, r, d, newRoom)
      == [] + [AttachRead(i, r, d)] + [AttachLook(i)] + [AttachWrite(i)] + [Write(t, newRoom)];
  }

  /**
   The attach takes no lock: whenever a load has a live room without a driver and a driver without a room, a
   creation for the two that has looked, an attach, and then the write of the creation leave two live rooms of
   that load and driver.
   */
  lemma AttachCanDuplicate(s: System, t: TxId, tx: Tx, i: TxId, r: RoomId, newRoom: RoomId)
    requires Inv(s) && tx.purpose == Create && Allowed(s, Begin(t, tx)) && !Held(s, tx.load, tx.driver)
    requires !Exists(s.rooms, tx.load, tx.driver, false) && newRoom !in s.rooms
    requires i !in s.attaches && r in s.rooms && r !in tx.drop && !HasDriver(s, s.rooms[r])
    requires s.rooms[r].kind == LoadRoom && s.rooms[r].loadId == Some(tx.load) && !s.rooms[r].isArchived
    ensures var actions := [Begin(t, tx), Acquire(t), Look(t)] + AttachThenWrite(t, i, r, tx.driver, newRoom);
      && Possible(s, actions) && r != newRoom
      && var rooms := DoAll(s, actions).rooms;
         && r in rooms && newRoom in rooms
         && Matches(rooms[r], tx.load, tx.driver, true) && Matches(rooms[newRoom], tx.load, tx.driver, true)
  {
    var first, second := [Begin(t, tx), Acquire(t), Look(t)], AttachThenWrite(t, i, r, tx.driver, newRoom);
    CreatorIsClear(s, t, tx);
    var s3 := s.(txs := s.txs[t := tx.(stage := Clear)]);
    assert tx.driver in tx.desired * s.drivers;
    assert HasDriver(s3, s.rooms[r]) == HasDriver(s, s.rooms[r]);
    AttachThenWriteDuplicates(s3, t, tx.(stage := Clear), i, r, newRoom);
    DoConcat(s, first, second);
  }

  lemma CreatorIsClear(s: System, t: TxId, tx: Tx)
    requires tx.purpose == Create && Allowed(s, Begin(t, tx)) && !Held(s, tx.load, tx.driver)
    requires !Exists(s.rooms, tx.load, tx.driver, false)
    ensures var first := [Begin(t, tx), Acquire(t), Look(t)];
      Possible(s, first) && DoAll(s, first) == s.(txs := s.txs[t := tx.(stage := Clear)])
  {
    var first := [Begin(t, tx), Acquire(t), Look(t)];
    var s1 := Do(s, first[0]);
    assert !Held(s1, tx.load, tx.driver);
    var s2 := Do(s1, first[1]);
    var s3 := Do(s2, first[2]);
    DoAppend(s, [], first[0]);
    DoAppend(s, [] + [first[0]], first[1]);
    DoAppend(s, [] + [first[0]] + [first[1]], first[2]);
    assert first == [] + [first[0]] + [first[1]] + [first[2]];
    assert s3.txs == s.txs[t := tx.(stage := Clear)];
  }
}
