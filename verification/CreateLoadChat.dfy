/** The request that gives each driver of a load their own LOAD room, driver after driver. */
module CreateLoadChat {
  import opened Options
  import opened LoadChats

  datatype ResultKind = Noop | Converted | NewRoom

  datatype Result = Result(room: RoomId, kind: ResultKind)

  /** The selected driver's OFFER room, and the OFFER rooms of drivers who are not in the request. */
  datatype OfferChats = OfferChats(selectedDriver: UserId, selectedRoom: RoomId, losing: set<RoomId>)

  ghost predicate Quiet(drivers: set<UserId>, rooms: map<RoomId, Room>) {
    Inv(System(drivers, rooms, map[], map[]))
  }

  /** LOAD rooms of the table are still there, unchanged. */
  ghost predicate LoadRoomsKept(before: map<RoomId, Room>, after: map<RoomId, Room>) {
    forall r | r in before && before[r].kind == LoadRoom :: r in after && after[r] == before[r]
  }

  /** Only `d`'s rooms of `load` have been added to the LOAD rooms. */
  ghost predicate OnlyNewFor(before: map<RoomId, Room>, after: map<RoomId, Room>, load: LoadId, done: seq<UserId>, drivers: set<UserId>) {
    forall r, d | r in after && d in drivers && Matches(after[r], load, d, false) ::
      (r in before && before[r] == after[r]) || d in done
  }

  /** One serialised transaction from a quiet table: nothing else holds a lock. */
  lemma QuietWrite(drivers: set<UserId>, rooms: map<RoomId, Room>, tx: Tx, newRoom: RoomId)
    requires Quiet(drivers, rooms) && newRoom !in rooms && !tx.purpose.Fork? && tx.stage == Clear
    requires tx.driver in drivers && tx.desired * drivers == {tx.driver}
    requires !Exists(rooms, tx.load, tx.driver, false)
    ensures Quiet(drivers, Written(rooms, tx, newRoom))
  {
    var s := System(drivers, rooms, map[0 := tx], map[]);
    assert Inv(s);
    WriteKeepsRooms(s, 0, newRoom);
    assert Do(s, Write(0, newRoom)).txs == map[];
  }

  /** The selected driver's OFFER room is converted while it is still an OFFER room. */
  predicate Converts(rooms: map<RoomId, Room>, driver: UserId, selected: Option<OfferChats>) {
    && selected.Some? && selected.value.selectedDriver == driver
    && selected.value.selectedRoom in rooms && rooms[selected.value.selectedRoom].kind == OfferRoom
  }

  /**
   The transaction for a driver without a LOAD room: a conversion also drops the losing OFFER rooms, a creation
   the driver's own OFFER room, if one is left.
   */
  function TxFor(rooms: map<RoomId, Room>, load: LoadId, driver: UserId, staff: set<UserId>, selected: Option<OfferChats>,
                 leftover: Option<RoomId>): Tx
  {
    if Converts(rooms, driver, selected) then
      var room := selected.value.selectedRoom;
      Tx(Convert(room), load, driver, {driver} + staff,
         (set r | r in selected.value.losing && r in rooms && rooms[r].kind == OfferRoom && r != room), Clear)
    else
      var drop := if leftover.Some? && leftover.value in rooms && rooms[leftover.value].kind == OfferRoom
        then {leftover.value} else {};
      Tx(Create, load, driver, {driver} + staff, drop, Clear)
  }

  function LeftoverOf(leftover: map<UserId, RoomId>, d: UserId): Option<RoomId> {
    if d in leftover then Some(leftover[d]) else None
  }

  // ---------------------------------------------------------------- who is in the rooms, and which rooms go

  predicate IsOffer(rooms: map<RoomId, Room>, r: RoomId) {
    r in rooms && rooms[r].kind == OfferRoom
  }

  /** A new or converted room is this driver's room of the load, with exactly the driver and the staff in it. */
  predicate HoldsDriverAndStaff(before: map<RoomId, Room>, after: map<RoomId, Room>, load: LoadId, driver: UserId,
                                staff: set<UserId>, result: Result)
  {
    && (result.kind == NewRoom ==>
          result.room in after && after[result.room] == Room(LoadRoom, Some(load), false, {driver} + staff))
    && (result.kind == Converted ==>
          && IsOffer(before, result.room) && result.room in after
          && after[result.room] == Room(LoadRoom, Some(load), before[result.room].isArchived, {driver} + staff))
  }

  /** An answer that sends `r` away: a new room the driver's leftover OFFER room, a conversion the losing ones. */
  predicate SendsAway(result: Result, leftover: Option<RoomId>, offer: Option<OfferChats>, r: RoomId) {
    || (result.kind == NewRoom && leftover == Some(r))
    || (result.kind == Converted && offer.Some? && r in offer.value.losing)
  }

  predicate SentAway(results: seq<Result>, drivers: seq<UserId>, leftover: map<UserId, RoomId>, offer: Option<OfferChats>, r: RoomId)
    requires |results| <= |drivers|
  {
    exists i | 0 <= i < |results| :: SendsAway(results[i], LeftoverOf(leftover, drivers[i]), offer, r)
  }

  predicate Reports(results: seq<Result>, r: RoomId, kind: ResultKind) {
    exists i | 0 <= i < |results| :: results[i] == Result(r, kind)
  }

  /** The rooms after the answers so far; what no answer is about is as it was. */
  ghost predicate RoomsFollow(start: map<RoomId, Room>, rooms: map<RoomId, Room>, drivers: seq<UserId>, offer: Option<OfferChats>,
                              leftover: map<UserId, RoomId>, results: seq<Result>)
    requires |results| <= |drivers|
  {
    && (forall r | r in start :: r !in rooms <==>
          IsOffer(start, r) && SentAway(results, drivers, leftover, offer, r) && !Reports(results, r, Converted))
    && (forall r | r in rooms && !Reports(results, r, NewRoom) && !Reports(results, r, Converted) ::
          r in start && rooms[r] == start[r])
  }

  /**
   When a driver's answer is a conversion: they had no room of the load, they are the selected driver, and the
   selected room is an OFFER room that no answer before has sent away.
   */
  predicate ConvertsHere(start: map<RoomId, Room>, load: LoadId, drivers: seq<UserId>, offer: Option<OfferChats>,
                         leftover: map<UserId, RoomId>, earlier: seq<Result>, room: RoomId)
    requires |earlier| < |drivers|
  {
    && !Exists(start, load, drivers[|earlier|], false)
    && offer.Some? && offer.value.selectedDriver == drivers[|earlier|] && offer.value.selectedRoom == room
    && IsOffer(start, room) && !SentAway(earlier, drivers, leftover, offer, room)
  }

  /** One driver's answer: the room it names, and when it is a conversion. */
  ghost predicate AnswerRight(start: map<RoomId, Room>, rooms: map<RoomId, Room>, load: LoadId, drivers: seq<UserId>, staff: set<UserId>,
                              offer: Option<OfferChats>, leftover: map<UserId, RoomId>, ids: seq<RoomId>, results: seq<Result>, i: nat)
    requires i < |results| <= |drivers| && |drivers| <= |ids|
  {
    && HoldsDriverAndStaff(start, rooms, load, drivers[i], staff, results[i])
    && (results[i].kind == NewRoom ==> results[i].room == ids[i])
    && (results[i].kind == Converted <==>
          offer.Some? && ConvertsHere(start, load, drivers, offer, leftover, results[..i], offer.value.selectedRoom))
    && (results[i].kind == Converted ==> results[i].room == offer.value.selectedRoom)
  }

  ghost predicate AnswersRight(start: map<RoomId, Room>, rooms: map<RoomId, Room>, load: LoadId, drivers: seq<UserId>, staff: set<UserId>,
                               offer: Option<OfferChats>, leftover: map<UserId, RoomId>, ids: seq<RoomId>, results: seq<Result>)
    requires |results| <= |drivers| <= |ids|
  {
    forall i | 0 <= i < |results| :: AnswerRight(start, rooms, load, drivers, staff, offer, leftover, ids, results, i)
  }

  /** What one driver's answer does to the rooms. */
  ghost predicate AnswerDone(before: map<RoomId, Room>, after: map<RoomId, Room>, load: LoadId, driver: UserId, staff: set<UserId>,
                             offer: Option<OfferChats>, leftover: Option<RoomId>, id: RoomId, result: Result)
  {
    && HoldsDriverAndStaff(before, after, load, driver, staff, result)
    && (result.kind == NewRoom ==> result.room == id)
    && (result.kind == Converted <==>
          && !Exists(before, load, driver, false)
          && offer.Some? && offer.value.selectedDriver == driver && IsOffer(before, offer.value.selectedRoom))
    && (result.kind == Converted ==> result.room == offer.value.selectedRoom)
    && (forall r | r in before :: r !in after <==>
          IsOffer(before, r) && SendsAway(result, leftover, offer, r) && result != Result(r, Converted))
    && (forall r | r in after && (result.kind == Noop || r != result.room) :: r in before && after[r] == before[r])
  }

  lemma WriteDone(rooms: map<RoomId, Room>, allDrivers: set<UserId>, load: LoadId, driver: UserId, staff: set<UserId>,
                  offer: Option<OfferChats>, leftover: Option<RoomId>, id: RoomId)
    requires !Exists(rooms, load, driver, false) && id !in rooms && driver in allDrivers && staff !! allDrivers
    ensures var after := Written(rooms, TxFor(rooms, load, driver, staff, offer, leftover), id);
      var result := if Converts(rooms, driver, offer) then Result(offer.value.selectedRoom, Converted) else Result(id, NewRoom);
      && AnswerDone(rooms, after, load, driver, staff, offer, leftover, id, result)
      && LoadRoomsKept(rooms, after) && OnlyNewFor(rooms, after, load, [driver], allDrivers)
      && after.Keys <= rooms.Keys + {id}
      && result.room in after && Matches(after[result.room], load, driver, false)
  {
    var after := Written(rooms, TxFor(rooms, load, driver, staff, offer, leftover), id);
    forall r, d | r in after && d in allDrivers && Matches(after[r], load, d, false)
      ensures (r in rooms && rooms[r] == after[r]) || d == driver
    {
      assert after[r].participants == {driver} + staff ==> d == driver;
    }
  }

  lemma WriteIsQuiet(rooms: map<RoomId, Room>, allDrivers: set<UserId>, load: LoadId, driver: UserId, staff: set<UserId>,
                     offer: Option<OfferChats>, leftover: Option<RoomId>, id: RoomId)
    requires !Exists(rooms, load, driver, false) && id !in rooms && driver in allDrivers && staff !! allDrivers
    requires Quiet(allDrivers, rooms)
    ensures Quiet(allDrivers, Written(rooms, TxFor(rooms, load, driver, staff, offer, leftover), id))
  {
    assert ({driver} + staff) * allDrivers == {driver};
    QuietWrite(allDrivers, rooms, TxFor(rooms, load, driver, staff, offer, leftover), id);
  }

  class ChatRoomsService {
    var rooms: map<RoomId, Room>

    /** One driver: reuse a room, convert the selected driver's OFFER room, or create a new one. */
    method ServeDriver(load: LoadId, driver: UserId, staff: set<UserId>, selected: Option<OfferChats>, leftover: Option<RoomId>,
                       id: RoomId, ghost allDrivers: set<UserId>)
      returns (result: Result)
      requires driver in allDrivers && staff !! allDrivers && id !in rooms && Quiet(allDrivers, rooms)
      modifies this
      ensures Quiet(allDrivers, rooms)
      ensures LoadRoomsKept(old(rooms), rooms)
      ensures OnlyNewFor(old(rooms), rooms, load, [driver], allDrivers)
      ensures rooms.Keys <= old(rooms).Keys + {id}
      ensures Served(old(rooms), rooms, load, driver, result)
      ensures result.kind == Converted ==> Converts(old(rooms), driver, selected) && result.room == selected.value.selectedRoom
      ensures result.kind == NewRoom ==> !Converts(old(rooms), driver, selected) && result.room == id
      ensures AnswerDone(old(rooms), rooms, load, driver, staff, selected, leftover, id, result)
    {
      var found := set r | r in rooms && Matches(rooms[r], load, driver, false);
      if found != {} {
        var live := set r | r in found && !rooms[r].isArchived;
        var r :| r in if live != {} then live else found;
        assert forall q | q in rooms && Matches(rooms[q], load, driver, true) :: q in live;
        return Result(r, Noop);
      }
      assert forall r | r in rooms :: r !in found;
      var tx;
      if selected.Some? && selected.value.selectedDriver == driver && selected.value.selectedRoom in rooms
         && rooms[selected.value.selectedRoom].kind == OfferRoom {
        var room := selected.value.selectedRoom;
        var losing := set r | r in selected.value.losing && r in rooms && rooms[r].kind == OfferRoom && r != room;
        tx, result := Tx(Convert(room), load, driver, {driver} + staff, losing, Clear), Result(room, Converted);
      } else {
        var drop := if leftover.Some? && leftover.value in rooms && rooms[leftover.value].kind == OfferRoom
          then {leftover.value} else {};
        tx, result := Tx(Create, load, driver, {driver} + staff, drop, Clear), Result(id, NewRoom);
      }
      assert tx == TxFor(rooms, load, driver, staff, selected, leftover);
      WriteIsQuiet(rooms, allDrivers, load, driver, staff, selected, leftover, id);
      WriteDone(rooms, allDrivers, load, driver, staff, selected, leftover, id);
      rooms := Written(rooms, tx, id);
      return result;
    }

    /**
     `staff` are the shared non-driver participants, `leftover` the OFFER room each driver may still have, and
     `ids` the keys the database gives to new rooms.
     */
    method CreateLoadChat(load: LoadId, drivers: seq<UserId>, staff: set<UserId>, offer: Option<OfferChats>,
                          leftover: map<UserId, RoomId>, ids: seq<RoomId>, ghost allDrivers: set<UserId>)
      returns (results: seq<Result>)
      requires forall d | d in drivers :: d in allDrivers
      requires forall i, j | 0 <= i < j < |drivers| :: drivers[i] != drivers[j]
      requires staff !! allDrivers
      requires |ids| == |drivers|
      requires forall i | 0 <= i < |ids| :: ids[i] !in rooms
      requires forall i, j | 0 <= i < j < |ids| :: ids[i] != ids[j]
      requires Quiet(allDrivers, rooms)
      modifies this
      ensures Quiet(allDrivers, rooms)
      ensures LoadRoomsKept(old(rooms), rooms)
      ensures |results| == |drivers|
      ensures forall i | 0 <= i < |drivers| :: Served(old(rooms), rooms, load, drivers[i], results[i])
      ensures AnswersRight(old(rooms), rooms, load, drivers, staff, offer, leftover, ids, results)
      ensures RoomsFollow(old(rooms), rooms, drivers, offer, leftover, results)
    {
      results := [];
      ghost var start := rooms;
      var i := 0;
      while i < |drivers|
        invariant 0 <= i <= |drivers|
        invariant Quiet(allDrivers, rooms)
        invariant forall k | i <= k < |ids| :: ids[k] !in rooms
        invariant Progress(start, rooms, load, drivers, i, staff, offer, leftover, ids, results, allDrivers)
      {
        var driver := drivers[i];
        ghost var before := rooms;
        var room := LeftoverOf(leftover, driver);
        var result := ServeDriver(load, driver, staff, offer, room, ids[i], allDrivers);
        ProgressNext(start, before, rooms, load, drivers, i, staff, offer, leftover, ids, results, result, allDrivers);
        results := results + [result];
        i := i + 1;
      }
      assert drivers[..i] == drivers;
    }
  }

  /** The answers say all there is to say: with the same ones from the same start the rooms are the same. */
  lemma AnswersDetermineRooms(start: map<RoomId, Room>, one: map<RoomId, Room>, two: map<RoomId, Room>, load: LoadId, drivers: seq<UserId>,
                              staff: set<UserId>, offer: Option<OfferChats>, leftover: map<UserId, RoomId>, ids: seq<RoomId>,
                              results: seq<Result>)
    requires |results| <= |drivers| <= |ids|
    requires AnswersRight(start, one, load, drivers, staff, offer, leftover, ids, results) && RoomsFollow(start, one, drivers, offer, leftover, results)
    requires AnswersRight(start, two, load, drivers, staff, offer, leftover, ids, results) && RoomsFollow(start, two, drivers, offer, leftover, results)
    ensures one == two
  {
    forall i | 0 <= i < |results| && results[i].kind != Noop
      ensures results[i].room in one && results[i].room in two && one[results[i].room] == two[results[i].room]
    {
      assert AnswerRight(start, one, load, drivers, staff, offer, leftover, ids, results, i);
      assert AnswerRight(start, two, load, drivers, staff, offer, leftover, ids, results, i);
    }
  }

  /** The first `i` drivers have their answers. */
  ghost predicate Progress(start: map<RoomId, Room>, rooms: map<RoomId, Room>, load: LoadId, drivers: seq<UserId>, i: nat,
                           staff: set<UserId>, offer: Option<OfferChats>, leftover: map<UserId, RoomId>, ids: seq<RoomId>,
                           results: seq<Result>, allDrivers: set<UserId>)
    requires i <= |drivers| <= |ids|
  {
    && ServedSoFar(start, rooms, load, drivers, i, results, allDrivers)
    && AnswersRight(start, rooms, load, drivers, staff, offer, leftover, ids, results)
    && RoomsFollow(start, rooms, drivers, offer, leftover, results)
  }

  lemma ProgressNext(start: map<RoomId, Room>, before: map<RoomId, Room>, after: map<RoomId, Room>, load: LoadId, drivers: seq<UserId>,
                     i: nat, staff: set<UserId>, offer: Option<OfferChats>, leftover: map<UserId, RoomId>, ids: seq<RoomId>,
                     results: seq<Result>, result: Result, allDrivers: set<UserId>)
    requires i < |drivers| <= |ids| && drivers[i] in allDrivers
    requires forall j, k | 0 <= j < k < |drivers| :: drivers[j] != drivers[k]
    requires forall k | 0 <= k < |ids| :: ids[k] !in start
    requires Progress(start, before, load, drivers, i, staff, offer, leftover, ids, results, allDrivers)
    requires LoadRoomsKept(before, after) && OnlyNewFor(before, after, load, [drivers[i]], allDrivers)
    requires Served(before, after, load, drivers[i], result)
    requires AnswerDone(before, after, load, drivers[i], staff, offer, LeftoverOf(leftover, drivers[i]), ids[i], result)
    ensures Progress(start, after, load, drivers, i + 1, staff, offer, leftover, ids, results + [result], allDrivers)
  {
    SameMatch(start, before, load, drivers[..i], allDrivers, drivers[i]);
    AnswersNext(start, before, after, load, drivers, i, staff, offer, leftover, ids, results, result);
    ServedNext(start, before, after, load, drivers, i, results, result, allDrivers);
  }

  lemma SentAwayNext(results: seq<Result>, result: Result, drivers: seq<UserId>, leftover: map<UserId, RoomId>,
                     offer: Option<OfferChats>, r: RoomId)
    requires |results| < |drivers|
    ensures SentAway(results + [result], drivers, leftover, offer, r)
      <==> SentAway(results, drivers, leftover, offer, r) || SendsAway(result, LeftoverOf(leftover, drivers[|results|]), offer, r)
  {
    var all := results + [result];
    assert all[|results|] == result;
    assert forall k | 0 <= k < |results| :: all[k] == results[k];
  }

  lemma ReportsNext(results: seq<Result>, result: Result, r: RoomId, kind: ResultKind)
    ensures Reports(results + [result], r, kind) <==> Reports(results, r, kind) || result == Result(r, kind)
  {
    var all := results + [result];
    assert all[|results|] == result;
    assert forall k | 0 <= k < |results| :: all[k] == results[k];
  }

  /** Rooms reported as created or converted are LOAD rooms, and the created ones are new. */
  ghost predicate ReportsLoads(start: map<RoomId, Room>, rooms: map<RoomId, Room>, results: seq<Result>) {
    forall r ::
      && (Reports(results, r, Converted) ==> r in rooms && rooms[r].kind == LoadRoom)
      && (Reports(results, r, NewRoom) ==> r in rooms && rooms[r].kind == LoadRoom && r !in start)
  }

  lemma ReportedAreLoads(start: map<RoomId, Room>, rooms: map<RoomId, Room>, load: LoadId, drivers: seq<UserId>, staff: set<UserId>,
                         offer: Option<OfferChats>, leftover: map<UserId, RoomId>, ids: seq<RoomId>, results: seq<Result>)
    requires |results| <= |drivers| <= |ids|
    requires forall k | 0 <= k < |ids| :: ids[k] !in start
    requires AnswersRight(start, rooms, load, drivers, staff, offer, leftover, ids, results)
    ensures ReportsLoads(start, rooms, results)
  {
    forall i | 0 <= i < |results| && results[i].kind != Noop
      ensures results[i].room in rooms && rooms[results[i].room].kind == LoadRoom
      ensures results[i].kind == NewRoom ==> results[i].room !in start
    {
      assert AnswerRight(start, rooms, load, drivers, staff, offer, leftover, ids, results, i);
    }
  }

  lemma FollowNext(start: map<RoomId, Room>, before: map<RoomId, Room>, after: map<RoomId, Room>, load: LoadId, drivers: seq<UserId>,
                   staff: set<UserId>, offer: Option<OfferChats>, leftover: map<UserId, RoomId>, id: RoomId,
                   results: seq<Result>, result: Result)
    requires |results| < |drivers|
    requires RoomsFollow(start, before, drivers, offer, leftover, results)
    requires ReportsLoads(start, before, results)
    requires var d := drivers[|results|];
      AnswerDone(before, after, load, d, staff, offer, LeftoverOf(leftover, d), id, result)
    requires id !in start || result.kind != NewRoom
    ensures RoomsFollow(start, after, drivers, offer, leftover, results + [result])
  {
    forall r ensures SentAway(results + [result], drivers, leftover, offer, r)
      <==> SentAway(results, drivers, leftover, offer, r) || SendsAway(result, LeftoverOf(leftover, drivers[|results|]), offer, r)
    {
      SentAwayNext(results, result, drivers, leftover, offer, r);
    }
    forall r, kind ensures Reports(results + [result], r, kind) <==> Reports(results, r, kind) || result == Result(r, kind) {
      ReportsNext(results, result, r, kind);
    }
    forall r | r in start
      ensures r !in after <==>
        IsOffer(start, r) && SentAway(results + [result], drivers, leftover, offer, r) && !Reports(results + [result], r, Converted)
    {
      assert !Reports(results, r, NewRoom);
    }
  }

  lemma AnswersNext(start: map<RoomId, Room>, before: map<RoomId, Room>, after: map<RoomId, Room>, load: LoadId, drivers: seq<UserId>,
                    i: nat, staff: set<UserId>, offer: Option<OfferChats>, leftover: map<UserId, RoomId>, ids: seq<RoomId>,
                    results: seq<Result>, result: Result)
    requires i == |results| < |drivers| <= |ids|
    requires forall j, k | 0 <= j < k < |drivers| :: drivers[j] != drivers[k]
    requires forall k | 0 <= k < |ids| :: ids[k] !in start
    requires AnswersRight(start, before, load, drivers, staff, offer, leftover, ids, results)
    requires RoomsFollow(start, before, drivers, offer, leftover, results)
    requires Exists(before, load, drivers[i], false) <==> Exists(start, load, drivers[i], false)
    requires LoadRoomsKept(before, after)
    requires AnswerDone(before, after, load, drivers[i], staff, offer, LeftoverOf(leftover, drivers[i]), ids[i], result)
    ensures AnswersRight(start, after, load, drivers, staff, offer, leftover, ids, results + [result])
    ensures RoomsFollow(start, after, drivers, offer, leftover, results + [result])
  {
    ReportedAreLoads(start, before, load, drivers, staff, offer, leftover, ids, results);
    FollowNext(start, before, after, load, drivers, staff, offer, leftover, ids[i], results, result);
    forall k | 0 <= k < i
      ensures AnswerRight(start, after, load, drivers, staff, offer, leftover, ids, results + [result], k)
    {
      assert AnswerRight(start, before, load, drivers, staff, offer, leftover, ids, results, k);
      assert (results + [result])[..k] == results[..k];
    }
    LastAnswer(start, before, after, load, drivers, staff, offer, leftover, ids, results, result);
  }

  /** The selected room is still an OFFER room exactly if it was one and has not been sent away. */
  lemma LastAnswer(start: map<RoomId, Room>, before: map<RoomId, Room>, after: map<RoomId, Room>, load: LoadId, drivers: seq<UserId>,
                   staff: set<UserId>, offer: Option<OfferChats>, leftover: map<UserId, RoomId>, ids: seq<RoomId>,
                   results: seq<Result>, result: Result)
    requires |results| < |drivers| <= |ids|
    requires forall j, k | 0 <= j < k < |drivers| :: drivers[j] != drivers[k]
    requires AnswersRight(start, before, load, drivers, staff, offer, leftover, ids, results)
    requires RoomsFollow(start, before, drivers, offer, leftover, results)
    requires ReportsLoads(start, before, results)
    requires var d := drivers[|results|];
      && (Exists(before, load, d, false) <==> Exists(start, load, d, false))
      && AnswerDone(before, after, load, d, staff, offer, LeftoverOf(leftover, d), ids[|results|], result)
    ensures AnswerRight(start, after, load, drivers, staff, offer, leftover, ids, results + [result], |results|)
  {
    assert (results + [result])[..|results|] == results;
    if offer.Some? && offer.value.selectedDriver == drivers[|results|] {
      var room := offer.value.selectedRoom;
      forall k | 0 <= k < |results| ensures results[k].kind != Converted {
        assert AnswerRight(start, before, load, drivers, staff, offer, leftover, ids, results, k);
      }
      assert !Reports(results, room, Converted);
      assert IsOffer(before, room) <==> IsOffer(start, room) && !SentAway(results, drivers, leftover, offer, room);
    }
  }

  /**
   The driver has a LOAD room of the load; it was there before exactly when nothing had to be written, and a live
   room is preferred.
   */
  ghost predicate Served(before: map<RoomId, Room>, after: map<RoomId, Room>, load: LoadId, driver: UserId, result: Result) {
    && result.room in after
    && Matches(after[result.room], load, driver, false)
    && (result.kind == Noop <==> Exists(before, load, driver, false))
    && (Exists(before, load, driver, true) ==> !after[result.room].isArchived)
  }

  /** The first `i` drivers have been served and nothing else has changed. */
  ghost predicate ServedSoFar(start: map<RoomId, Room>, rooms: map<RoomId, Room>, load: LoadId, drivers: seq<UserId>, i: nat,
                              results: seq<Result>, allDrivers: set<UserId>)
    requires i <= |drivers|
  {
    && LoadRoomsKept(start, rooms)
    && OnlyNewFor(start, rooms, load, drivers[..i], allDrivers)
    && |results| == i
    && forall k | 0 <= k < i :: Served(start, rooms, load, drivers[k], results[k])
  }

  lemma ServedNext(start: map<RoomId, Room>, before: map<RoomId, Room>, after: map<RoomId, Room>, load: LoadId,
                   drivers: seq<UserId>, i: nat, results: seq<Result>, result: Result, allDrivers: set<UserId>)
    requires i < |drivers| && drivers[i] in allDrivers && drivers[i] !in drivers[..i]
    requires ServedSoFar(start, before, load, drivers, i, results, allDrivers)
    requires LoadRoomsKept(before, after) && OnlyNewFor(before, after, load, [drivers[i]], allDrivers)
    requires Served(before, after, load, drivers[i], result)
    ensures ServedSoFar(start, after, load, drivers, i + 1, results + [result], allDrivers)
  {
    assert drivers[..i + 1] == drivers[..i] + [drivers[i]];
    SameMatch(start, before, load, drivers[..i], allDrivers, drivers[i]);
    forall k | 0 <= k < i ensures Served(start, after, load, drivers[k], results[k]) {
      assert Served(start, before, load, drivers[k], results[k]);
    }
  }

  /** A driver not yet served has a LOAD room now exactly if they had one at the start. */
  lemma SameMatch(before: map<RoomId, Room>, after: map<RoomId, Room>, load: LoadId, done: seq<UserId>, drivers: set<UserId>, d: UserId)
    requires LoadRoomsKept(before, after) && OnlyNewFor(before, after, load, done, drivers)
    requires d in drivers && d !in done
    ensures Exists(after, load, d, false) <==> Exists(before, load, d, false)
  {
    if r :| r in before && Matches(before[r], load, d, false) {
      assert Matches(after[r], load, d, false);
    }
  }
}
