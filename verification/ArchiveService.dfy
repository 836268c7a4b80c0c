/**
 The archive service: grouping old messages by day, moving each day into a file, and restoring a room. What the
 network and the database answer is a parameter of each method; local dates are given by `dayOf`.
 */
module ArchiveService {
  import opened Options
  import opened MessageArchive

  // ---------------------------------------------------------------- grouping

  predicate Distinct<T(==)>(s: seq<T>) {
    forall i, j | 0 <= i < j < |s| :: s[i] != s[j]
  }

  /** The messages of one day, in their order; undated messages belong to no day. */
  function OnDay(messages: seq<Message>, date: Date, dayOf: int -> Date): seq<Entry> {
    if messages == [] then []
    else
      var m := messages[|messages| - 1];
      var earlier := OnDay(messages[..|messages| - 1], date, dayOf);
      if m.createdAt.Some? && dayOf(m.createdAt.value) == date then earlier + [AsEntry(m)] else earlier
  }

  /** The days in the order in which they first occur. */
  function Days(messages: seq<Message>, dayOf: int -> Date): seq<Date> {
    if messages == [] then []
    else
      var m := messages[|messages| - 1];
      var earlier := Days(messages[..|messages| - 1], dayOf);
      if m.createdAt.Some? && dayOf(m.createdAt.value) !in earlier then earlier + [dayOf(m.createdAt.value)] else earlier
  }

  function Dated(messages: seq<Message>): seq<Entry> {
    if messages == [] then []
    else
      var m := messages[|messages| - 1];
      Dated(messages[..|messages| - 1]) + if m.createdAt.Some? then [AsEntry(m)] else []
  }

  /** Everything in the groups of `days`, counted. */
  function Gathered(days: seq<Date>, messages: seq<Message>, dayOf: int -> Date): multiset<Entry> {
    if days == [] then multiset{}
    else Gathered(days[..|days| - 1], messages, dayOf) + multiset(OnDay(messages, days[|days| - 1], dayOf))
  }

  lemma {:induction false} DaysDistinct(messages: seq<Message>, dayOf: int -> Date)
    ensures Distinct(Days(messages, dayOf))
  {
    if messages != [] {
      DaysDistinct(messages[..|messages| - 1], dayOf);
    }
  }

  lemma {:induction false} DaysCover(messages: seq<Message>, dayOf: int -> Date, m: Message)
    requires m in messages && m.createdAt.Some?
    ensures dayOf(m.createdAt.value) in Days(messages, dayOf)
    ensures AsEntry(m) in OnDay(messages, dayOf(m.createdAt.value), dayOf)
  {
    var n := |messages| - 1;
    if m != messages[n] {
      assert m in messages[..n];
      DaysCover(messages[..n], dayOf, m);
    }
  }

  lemma {:induction false} OnDayOnly(messages: seq<Message>, date: Date, dayOf: int -> Date, e: Entry)
    requires e in OnDay(messages, date, dayOf)
    ensures exists m :: m in messages && m.createdAt.Some? && AsEntry(m) == e && dayOf(e.createdAt) == date
  {
    var n := |messages| - 1;
    if e in OnDay(messages[..n], date, dayOf) {
      OnDayOnly(messages[..n], date, dayOf, e);
      var m :| m in messages[..n] && m.createdAt.Some? && AsEntry(m) == e && dayOf(e.createdAt) == date;
      assert m in messages;
    } else {
      assert messages[n] in messages;
    }
  }

  /** A further message enters the group of its own day and no other. */
  lemma {:induction false} GatheredNext(days: seq<Date>, messages: seq<Message>, dayOf: int -> Date)
    requires messages != [] && Distinct(days)
    ensures var m := messages[|messages| - 1];
      Gathered(days, messages, dayOf) == Gathered(days, messages[..|messages| - 1], dayOf)
        + if m.createdAt.Some? && dayOf(m.createdAt.value) in days then multiset{AsEntry(m)} else multiset{}
  {
    if days != [] {
      var n, k := |days| - 1, |messages| - 1;
      var m, date := messages[k], days[n];
      GatheredNext(days[..n], messages, dayOf);
      assert forall d :: d in days <==> d in days[..n] || d == date;
      if m.createdAt.Some? && dayOf(m.createdAt.value) == date {
        assert date !in days[..n];
        assert OnDay(messages, date, dayOf) == OnDay(messages[..k], date, dayOf) + [AsEntry(m)];
      } else {
        assert OnDay(messages, date, dayOf) == OnDay(messages[..k], date, dayOf);
      }
    }
  }

  lemma {:induction false} GatheredEmpty(days: seq<Date>, dayOf: int -> Date)
    ensures Gathered(days, [], dayOf) == multiset{}
  {
    if days != [] {
      GatheredEmpty(days[..|days| - 1], dayOf);
    }
  }

  /** Grouping is a partition: over distinct days that cover the input, every dated message is in one group, once. */
  lemma {:induction false} GroupsPartition(days: seq<Date>, messages: seq<Message>, dayOf: int -> Date)
    requires Distinct(days)
    requires forall m | m in messages && m.createdAt.Some? :: dayOf(m.createdAt.value) in days
    ensures Gathered(days, messages, dayOf) == multiset(Dated(messages))
  {
    if messages == [] {
      GatheredEmpty(days, dayOf);
    } else {
      GatheredNext(days, messages, dayOf);
      GroupsPartition(days, messages[..|messages| - 1], dayOf);
    }
  }

  // ---------------------------------------------------------------- the run, as a function

  /** Day after day; an error ends the room. */
  function DaysAfter(s: Store, room: RoomId, days: seq<Date>, messages: seq<Message>, dayOf: int -> Date,
                     fates: (RoomId, Date) -> Fate): Store
    decreases |days|
  {
    if days == [] then s
    else
      var (t, ok) := ArchiveDay(s, room, days[0], OnDay(messages, days[0], dayOf), fates(room, days[0]));
      if ok then DaysAfter(t, room, days[1..], messages, dayOf, fates) else t
  }

  /** Room after room; an error in one room does not stop the next. */
  function RoomsAfter(s: Store, chats: seq<RoomId>, rows: map<RoomId, seq<Message>>, dayOf: int -> Date,
                      fates: (RoomId, Date) -> Fate): Store
    requires forall r | r in chats :: r in rows
    decreases |chats|
  {
    if chats == [] then s
    else
      var t := DaysAfter(s, chats[0], Days(rows[chats[0]], dayOf), rows[chats[0]], dayOf, fates);
      RoomsAfter(t, chats[1..], rows, dayOf, fates)
  }

  lemma {:induction false} RoomsAfterSplit(s: Store, first: seq<RoomId>, second: seq<RoomId>, rows: map<RoomId, seq<Message>>,
                                           dayOf: int -> Date, fates: (RoomId, Date) -> Fate)
    requires forall r | r in first + second :: r in rows
    ensures forall r | r in first :: r in rows
    ensures forall r | r in second :: r in rows
    ensures RoomsAfter(s, first + second, rows, dayOf, fates)
      == RoomsAfter(RoomsAfter(s, first, rows, dayOf, fates), second, rows, dayOf, fates)
    decreases |first|
  {
    forall r | r in first ensures r in rows {
      assert r in first + second;
    }
    forall r | r in second ensures r in rows {
      assert r in first + second;
    }
    if first == [] {
      assert first + second == second;
    } else {
      var t := DaysAfter(s, first[0], Days(rows[first[0]], dayOf), rows[first[0]], dayOf, fates);
      assert (first + second)[1..] == first[1..] + second;
      RoomsAfterSplit(t, first[1..], second, rows, dayOf, fates);
    }
  }

  /** The answer of the query: the rooms with old messages, each with all of its old messages. */
  predicate OldMessages(s: Store, chats: seq<RoomId>, rows: map<RoomId, seq<Message>>, cutoff: int) {
    && (forall r | r in chats :: r in rows)
    && (forall r | r in chats :: forall m | m in rows[r] ::
          m.id in s.db && s.db[m.id] == m && m.room == r && m.createdAt.Some? && m.createdAt.value < cutoff)
    && (forall id | id in s.db ::
          s.db[id].createdAt.Some? && s.db[id].createdAt.value < cutoff ==>
            s.db[id].room in chats && s.db[id] in rows[s.db[id].room])
    && Distinct(chats)
  }

  /** Each first check reports whether the day's file was there when the run began. */
  ghost predicate Exact(fates: (RoomId, Date) -> Fate, s: Store) {
    forall room, date :: fates(room, date).found <==> (room, Daily(date)) in s.files
  }

  ghost predicate Smooth(fates: (RoomId, Date) -> Fate) {
    forall room, date ::
      fates(room, date).upload == Uploaded && fates(room, date).verified && fates(room, date).delete == Deleted
  }

  /** No row of these days of the room has left the table, no file of them has been added. */
  predicate DaysUntouched(start: Store, s: Store, room: RoomId, days: seq<Date>, dayOf: int -> Date) {
    forall date | date in days :: (room, Daily(date)) in s.files ==> (room, Daily(date)) in start.files
  }

  /** What is left of the room's old messages of a day is there because its file was there before. */
  predicate DayDone(start: Store, s: Store, room: RoomId, date: Date, cutoff: int, dayOf: int -> Date) {
    (room, Daily(date)) in start.files
    || forall id | id in s.db :: var m := s.db[id];
         !(m.room == room && m.createdAt.Some? && m.createdAt.value < cutoff && dayOf(m.createdAt.value) == date)
  }

  lemma GroupIsFile(s: Store, chats: seq<RoomId>, rows: map<RoomId, seq<Message>>, cutoff: int, dayOf: int -> Date,
                    room: RoomId, date: Date)
    requires OldMessages(s, chats, rows, cutoff) && room in chats
    ensures NewFileOk(s, (room, Daily(date)), OnDay(rows[room], date, dayOf), cutoff, dayOf)
  {
    forall e | e in OnDay(rows[room], date, dayOf)
      ensures InDb(s, e) && e.room == room && e.createdAt < cutoff && dayOf(e.createdAt) == date
    {
      OnDayOnly(rows[room], date, dayOf, e);
    }
  }

  lemma {:induction false} DaysAfterKeeps(start: Store, s: Store, chats: seq<RoomId>, rows: map<RoomId, seq<Message>>,
                                          room: RoomId, days: seq<Date>, cutoff: int, dayOf: int -> Date,
                                          fates: (RoomId, Date) -> Fate)
    requires DbOk(start) && OldMessages(start, chats, rows, cutoff) && room in chats && Exact(fates, start)
    requires ArchiveRun(start, s, cutoff, dayOf) && DaysUntouched(start, s, room, days, dayOf)
    requires Distinct(days)
    ensures var t := DaysAfter(s, room, days, rows[room], dayOf, fates);
      && ArchiveRun(start, t, cutoff, dayOf)
      && (forall k | k in t.files && k !in s.files :: k.0 == room)
      && (forall id | id in t.db :: id in s.db)
      && (Smooth(fates) ==> forall date | date in days :: DayDone(start, t, room, date, cutoff, dayOf))
    decreases |days|
  {
    if days != [] {
      var date := days[0];
      var entries := OnDay(rows[room], date, dayOf);
      var (t, ok) := ArchiveDay(s, room, date, entries, fates(room, date));
      GroupIsFile(start, chats, rows, cutoff, dayOf, room, date);
      DayKeepsRun(start, s, room, date, entries, fates(room, date), cutoff, dayOf);
      if Smooth(fates) && !fates(room, date).found {
        forall m | m in rows[room] && m.createdAt.Some? && dayOf(m.createdAt.value) == date
          ensures AsEntry(m) in entries && m.id in IdsOf(entries)
        {
          DaysCover(rows[room], dayOf, m);
        }
        assert forall id | id in t.db :: id in s.db && t.db[id] == start.db[id] && id !in IdsOf(entries);
      }
      if ok {
        DaysAfterKeeps(start, t, chats, rows, room, days[1..], cutoff, dayOf, fates);
      }
    }
  }

  /**
   A run over all rooms, whatever fails: with exact checks it is an archive run, so nothing is lost; when nothing
   fails, an old message is left in the table only if its day had a file already.
   */
  lemma {:induction false} RoomsAfterKeeps(start: Store, s: Store, all: seq<RoomId>, chats: seq<RoomId>,
                                           rows: map<RoomId, seq<Message>>, cutoff: int, dayOf: int -> Date,
                                           fates: (RoomId, Date) -> Fate)
    requires DbOk(start) && OldMessages(start, all, rows, cutoff) && Exact(fates, start)
    requires ArchiveRun(start, s, cutoff, dayOf)
    requires forall r | r in chats :: r in all
    requires Distinct(chats)
    requires forall k | k in s.files && k !in start.files :: k.0 !in chats
    ensures var t := RoomsAfter(s, chats, rows, dayOf, fates);
      && ArchiveRun(start, t, cutoff, dayOf)
      && (forall id | id in t.db :: id in s.db)
      && (Smooth(fates) ==> forall r, date | r in chats && date in Days(rows[r], dayOf) :: DayDone(start, t, r, date, cutoff, dayOf))
    decreases |chats|
  {
    if chats != [] {
      var r := chats[0];
      var days := Days(rows[r], dayOf);
      DaysDistinct(rows[r], dayOf);
      assert r in all;
      DaysAfterKeeps(start, s, all, rows, r, days, cutoff, dayOf, fates);
      var t := DaysAfter(s, r, days, rows[r], dayOf, fates);
      RoomsAfterKeeps(start, t, all, chats[1..], rows, cutoff, dayOf, fates);
      var u := RoomsAfter(t, chats[1..], rows, dayOf, fates);
      if Smooth(fates) {
        forall date | date in days ensures DayDone(start, u, r, date, cutoff, dayOf) {
          assert DayDone(start, t, r, date, cutoff, dayOf);
          assert forall id | id in u.db :: id in t.db && u.db[id] == start.db[id] == t.db[id];
        }
      }
    }
  }

  /** What a run in which nothing fails leaves in the table. */
  lemma SmoothRunLeaves(s: Store, chats: seq<RoomId>, rows: map<RoomId, seq<Message>>, cutoff: int, dayOf: int -> Date,
                        fates: (RoomId, Date) -> Fate, id: MessageId)
    requires DbOk(s) && OldMessages(s, chats, rows, cutoff) && Exact(fates, s) && Smooth(fates) && id in s.db
    ensures id in RoomsAfter(s, chats, rows, dayOf, fates).db <==>
      s.db[id].createdAt.value >= cutoff || (s.db[id].room, Daily(dayOf(s.db[id].createdAt.value))) in s.files
  {
    RoomsAfterKeeps(s, s, chats, chats, rows, cutoff, dayOf, fates);
    var t := RoomsAfter(s, chats, rows, dayOf, fates);
    var m := s.db[id];
    if id in t.db && m.createdAt.value < cutoff {
      DaysCover(rows[m.room], dayOf, m);
      assert DayDone(s, t, m.room, dayOf(m.createdAt.value), cutoff, dayOf);
    }
  }

  // ---------------------------------------------------------------- the restore, as functions

  /** The entries of the listed files that can be read, file after file. */
  function Loaded(s: Store, room: RoomId, listing: seq<Slot>, readable: set<Slot>): seq<Entry> {
    if listing == [] then []
    else
      var slot := listing[|listing| - 1];
      Loaded(s, room, listing[..|listing| - 1], readable)
        + if slot in readable && (room, slot) in s.files then s.files[(room, slot)] else []
  }

  predicate IsRead(s: Store, room: RoomId, slot: Slot, readable: set<Slot>) {
    slot in readable && (room, slot) in s.files && |s.files[(room, slot)]| > 0
  }

  function FilesRead(s: Store, room: RoomId, listing: seq<Slot>, readable: set<Slot>): nat {
    if listing == [] then 0
    else
      FilesRead(s, room, listing[..|listing| - 1], readable)
        + if IsRead(s, room, listing[|listing| - 1], readable) then 1 else 0
  }

  /** What a restore inserts. */
  function Found(s: Store, room: RoomId, listing: seq<Slot>, readable: set<Slot>): seq<Entry> {
    Firsts(Loaded(s, room, listing, readable), room)
  }

  predicate HasId(entries: seq<Entry>, id: MessageId) {
    exists e | e in entries :: e.id == id
  }

  lemma HasIdNext(entries: seq<Entry>, e: Entry)
    ensures forall id :: HasId(entries + [e], id) <==> HasId(entries, id) || id == e.id
  {
    assert forall x :: x in entries + [e] <==> x in entries || x == e;
    assert HasId(entries + [e], e.id);
  }

  /** The first entry of each id, of this room only. */
  function Firsts(entries: seq<Entry>, room: RoomId): seq<Entry> {
    if entries == [] then []
    else
      var e := entries[|entries| - 1];
      var earlier := Firsts(entries[..|entries| - 1], room);
      if e.room == room && !HasId(earlier, e.id) then earlier + [e] else earlier
  }

  function Misplaced(entries: seq<Entry>, room: RoomId): nat {
    if entries == [] then 0
    else Misplaced(entries[..|entries| - 1], room) + if entries[|entries| - 1].room != room then 1 else 0
  }

  /** Rows are inserted one after the other; a row whose id is taken is passed over. */
  function Insert(db: map<MessageId, Message>, rows: seq<Entry>): map<MessageId, Message> {
    if rows == [] then db
    else
      var e := rows[|rows| - 1];
      var earlier := Insert(db, rows[..|rows| - 1]);
      if e.id in earlier then earlier else earlier[e.id := RestoredRow(e)]
  }

  lemma {:induction false} InsertSplit(db: map<MessageId, Message>, first: seq<Entry>, second: seq<Entry>)
    ensures Insert(db, first + second) == Insert(Insert(db, first), second)
  {
    if second == [] {
      assert first + second == first;
    } else {
      var n := |second| - 1;
      InsertSplit(db, first, second[..n]);
      assert (first + second)[..|first + second| - 1] == first + second[..n];
    }
  }

  lemma {:induction false} InsertSize(db: map<MessageId, Message>, rows: seq<Entry>)
    ensures |db| <= |Insert(db, rows)| <= |db| + |rows|
  {
    if rows != [] {
      InsertSize(db, rows[..|rows| - 1]);
    }
  }

  predicate AddedFrom(db: map<MessageId, Message>, rows: seq<Entry>, after: map<MessageId, Message>) {
    && (forall id | id in db :: id in after && after[id] == db[id])
    && (forall e | e in rows :: e.id in after)
    && (forall id | id in after && id !in db :: exists e | e in rows :: e.id == id && after[id] == RestoredRow(e))
  }

  lemma AddedOneMore(db: map<MessageId, Message>, rows: seq<Entry>, after: map<MessageId, Message>, e: Entry)
    requires AddedFrom(db, rows, after)
    ensures AddedFrom(db, rows + [e], if e.id in after then after else after[e.id := RestoredRow(e)])
  {
    var more := if e.id in after then after else after[e.id := RestoredRow(e)];
    assert forall x :: x in rows + [e] <==> x in rows || x == e;
    forall id | id in more && id !in db ensures exists x | x in rows + [e] :: x.id == id && more[id] == RestoredRow(x) {
      if id in after {
        var x :| x in rows && x.id == id && after[id] == RestoredRow(x);
        assert x in rows + [e];
      } else {
        assert e in rows + [e];
      }
    }
  }

  /** What is in the table stays as it is; every other id of the rows is added with its row. */
  lemma {:induction false} InsertAdds(db: map<MessageId, Message>, rows: seq<Entry>)
    ensures AddedFrom(db, rows, Insert(db, rows))
  {
    if rows != [] {
      var n := |rows| - 1;
      InsertAdds(db, rows[..n]);
      AddedOneMore(db, rows[..n], Insert(db, rows[..n]), rows[n]);
      assert rows[..n] + [rows[n]] == rows;
    }
  }

  /** Each id of the room occurs once among the firsts, and nothing else does. */
  lemma {:induction false} FirstsOnce(entries: seq<Entry>, room: RoomId)
    ensures var firsts := Firsts(entries, room);
      && (forall e | e in firsts :: e in entries && e.room == room)
      && (forall e | e in entries && e.room == room :: HasId(firsts, e.id))
      && |IdsOf(firsts)| == |firsts|
  {
    if entries != [] {
      var n := |entries| - 1;
      FirstsOnce(entries[..n], room);
      var earlier, e := Firsts(entries[..n], room), entries[n];
      assert entries == entries[..n] + [e];
      if e.room == room && !HasId(earlier, e.id) {
        assert Firsts(entries, room) == earlier + [e];
        assert IdsOf(earlier + [e]) == IdsOf(earlier) + {e.id};
        assert e.id !in IdsOf(earlier);
        assert forall x | x in entries && x.room == room && x != e :: HasId(earlier, x.id);
      }
    }
  }

  lemma {:induction false} LoadedIs(s: Store, room: RoomId, listing: seq<Slot>, readable: set<Slot>, e: Entry)
    ensures e in Loaded(s, room, listing, readable) <==>
      exists slot :: slot in listing && slot in readable && InFile(s, e, (room, slot))
  {
    if listing != [] {
      var n := |listing| - 1;
      LoadedIs(s, room, listing[..n], readable, e);
      assert listing == listing[..n] + [listing[n]];
    }
  }

  /** Inserting any part of what was read is a restore. */
  lemma InsertIsRestore(s: Store, room: RoomId, listing: seq<Slot>, readable: set<Slot>, n: nat)
    requires n <= |Found(s, room, listing, readable)|
    ensures RestoreRun(s, s.(db := Insert(s.db, Found(s, room, listing, readable)[..n])))
  {
    var entries := Loaded(s, room, listing, readable);
    var rows := Firsts(entries, room)[..n];
    FirstsOnce(entries, room);
    InsertAdds(s.db, rows);
    var after := Insert(s.db, rows);
    forall id | id in after && id !in s.db
      ensures exists e: Entry :: e.id == id && InSomeFile(s, e) && after[id] == RestoredRow(e)
    {
      var e :| e in rows && e.id == id && after[id] == RestoredRow(e);
      assert e in Firsts(entries, room);
      LoadedIs(s, room, listing, readable, e);
    }
  }

  /**
   The whole room is back exactly when every message of a file that was not listed or could not be read is in the
   table already or in a file that was read.
   */
  lemma RestoreCompleteExactlyWhen(s: Store, room: RoomId, listing: seq<Slot>, readable: set<Slot>)
    ensures AllBack(s.(db := Insert(s.db, Found(s, room, listing, readable))), room) <==>
      forall k, e | InFile(s, e, k) && k.0 == room && e.room == room && !(k.1 in listing && k.1 in readable) ::
        || e.id in s.db
        || exists x :: x in Loaded(s, room, listing, readable) && x.room == room && x.id == e.id
  {
    var entries := Loaded(s, room, listing, readable);
    var firsts := Firsts(entries, room);
    var t := s.(db := Insert(s.db, firsts));
    FirstsOnce(entries, room);
    InsertAdds(s.db, firsts);
    forall k, e | InFile(s, e, k) && k.0 == room && e.room == room
      ensures e.id in t.db <==> e.id in s.db || exists x :: x in entries && x.room == room && x.id == e.id
    {
      if e.id in t.db && e.id !in s.db {
        var x :| x in firsts && x.id == e.id && t.db[e.id] == RestoredRow(x);
        assert x in entries;
      }
      if x :| x in entries && x.room == room && x.id == e.id {
        assert HasId(firsts, x.id);
      }
    }
    forall k, e | InFile(s, e, k) && k.0 == room && e.room == room && k.1 in listing && k.1 in readable
      ensures e in entries && e.id in t.db
    {
      LoadedIs(s, room, listing, readable, e);
      assert k == (room, k.1);
    }
    forall k, e | InFile(t, e, k) ensures InFile(s, e, k) {
    }
    forall k, e | InFile(s, e, k) ensures InFile(t, e, k) {
    }
  }

  // ---------------------------------------------------------------- the service

  const BATCH_SIZE := 5
  const CHUNK_SIZE := 300

  datatype RestoreReply =
    | RoomNotFound
    | ListingFailed
    | SendersMissing
    | InsertFailed
    | Restored(targetsFound: nat, filesRead: nat, unique: nat, inserted: nat, wrongRoom: nat, alreadyInDb: nat)

  /** What a restore with a listing answers, and what it leaves in the table. */
  predicate Replied(s: Store, db: map<MessageId, Message>, room: RoomId, listing: seq<Slot>, readable: set<Slot>,
                    users: set<UserId>, failAt: Option<nat>, reply: RestoreReply)
  {
    var found := Found(s, room, listing, readable);
    match reply
    case RoomNotFound => false
    case ListingFailed => false
    case SendersMissing => db == s.db && exists e | e in found :: e.content.sender !in users
    case InsertFailed =>
      && (forall e | e in found :: e.content.sender in users)
      && failAt.Some? && failAt.value * CHUNK_SIZE < |found|
      && db == Insert(s.db, found[..failAt.value * CHUNK_SIZE])
    case Restored(targetsFound, filesRead, unique, inserted, wrongRoom, alreadyInDb) =>
      && (forall e | e in found :: e.content.sender in users)
      && db == Insert(s.db, found)
      && targetsFound == |listing|
      && filesRead == FilesRead(s, room, listing, readable)
      && unique == |IdsOf(found)|
      && inserted == |db| - |s.db|
      && inserted + alreadyInDb == unique
      && wrongRoom == Misplaced(Loaded(s, room, listing, readable), room)
  }

  /** Whatever it answers, a restore only puts archived messages back. */
  lemma RepliedIsRestore(s: Store, db: map<MessageId, Message>, room: RoomId, listing: seq<Slot>, readable: set<Slot>,
                         users: set<UserId>, failAt: Option<nat>, reply: RestoreReply)
    requires Replied(s, db, room, listing, readable, users, failAt, reply)
    ensures RestoreRun(s, s.(db := db))
  {
    var found := Found(s, room, listing, readable);
    match reply {
      case InsertFailed => InsertIsRestore(s, room, listing, readable, failAt.value * CHUNK_SIZE);
      case Restored(_, _, _, _, _, _) =>
        InsertIsRestore(s, room, listing, readable, |found|);
        assert found[..|found|] == found;
      case _ =>
    }
  }

  lemma AllInserted(s: Store, room: RoomId, listing: seq<Slot>, readable: set<Slot>, users: set<UserId>, failAt: Option<nat>)
    requires forall e | e in Found(s, room, listing, readable) :: e.content.sender in users
    ensures var found := Found(s, room, listing, readable); var db := Insert(s.db, found);
      && |db| >= |s.db| && |found| >= |db| - |s.db|
      && Replied(s, db, room, listing, readable, users, failAt,
           Restored(|listing|, FilesRead(s, room, listing, readable), |found|, |db| - |s.db|, Misplaced(Loaded(s, room, listing, readable), room),
                    |found| - (|db| - |s.db|)))
  {
    FirstsOnce(Loaded(s, room, listing, readable), room);
    InsertSize(s.db, Found(s, room, listing, readable));
  }

  class MessagesArchiveService {
    var db: map<MessageId, Message>
    var files: map<FileKey, seq<Entry>>
    const dayOf: int -> Date

    function State(): Store
      reads this
    {
      Store(db, files)
    }

    constructor (dayOf: int -> Date)
      ensures State() == Store(map[], map[]) && this.dayOf == dayOf
    {
      db, files, this.dayOf := map[], map[], dayOf;
    }

    /** A map remembers the order in which its keys came in; `days` is that order. */
    method GroupMessagesByDay(messages: seq<Message>) returns (days: seq<Date>, grouped: map<Date, seq<Entry>>)
      ensures days == Days(messages, dayOf)
      ensures forall date :: date in grouped <==> date in days
      ensures forall date | date in grouped :: grouped[date] == OnDay(messages, date, dayOf)
      ensures Distinct(days)
      ensures Gathered(days, messages, dayOf) == multiset(Dated(messages))
    {
      days, grouped := [], map[];
      var i := 0;
      while i < |messages|
        invariant 0 <= i <= |messages|
        invariant days == Days(messages[..i], dayOf)
        invariant forall date :: date in grouped <==> date in days
        invariant forall date | date in grouped :: grouped[date] == OnDay(messages[..i], date, dayOf)
        invariant forall date | date !in grouped :: OnDay(messages[..i], date, dayOf) == []
      {
        var m := messages[i];
        assert messages[..i + 1][..i] == messages[..i];
        if m.createdAt.Some? {
          var key := dayOf(m.createdAt.value);
          if key !in grouped {
            grouped := grouped[key := []];
            days := days + [key];
          }
          grouped := grouped[key := grouped[key] + [AsEntry(m)]];
        }
        i := i + 1;
      }
      assert messages[..i] == messages;
      DaysDistinct(messages, dayOf);
      forall m | m in messages && m.createdAt.Some? ensures dayOf(m.createdAt.value) in days {
        DaysCover(messages, dayOf, m);
      }
      GroupsPartition(days, messages, dayOf);
    }

    /** Upload, look again, delete: an error at any step ends the day where it stands. */
    method ArchiveMessagesForDay(room: RoomId, date: Date, messages: seq<Entry>, fate: Fate) returns (ok: bool)
      modifies this
      ensures (State(), ok) == MoveDay(old(State()), room, date, messages, fate)
    {
      if fate.upload == UploadRefused {
        return false;
      }
      files := files[(room, Daily(date)) := messages];
      if fate.upload == UploadedButFailed {
        return false;
      }
      if !fate.verified {
        return false;
      }
      if fate.delete == DeleteRefused {
        return false;
      }
      db := db - IdsOf(messages);
      return fate.delete == Deleted;
    }

    method ArchiveRoom(room: RoomId, messages: seq<Message>, fates: (RoomId, Date) -> Fate)
      modifies this
      ensures State() == DaysAfter(old(State()), room, Days(messages, dayOf), messages, dayOf, fates)
    {
      var days, grouped := GroupMessagesByDay(messages);
      var i := 0;
      while i < |days|
        invariant 0 <= i <= |days|
        invariant DaysAfter(old(State()), room, days, messages, dayOf, fates)
          == DaysAfter(State(), room, days[i..], messages, dayOf, fates)
      {
        var date := days[i];
        assert days[i..][1..] == days[i + 1..];
        var fate := fates(room, date);
        if !fate.found {
          var ok := ArchiveMessagesForDay(room, date, grouped[date], fate);
          if !ok {
            return;
          }
        }
        i := i + 1;
      }
    }

    method ArchiveBatch(batch: seq<RoomId>, rows: map<RoomId, seq<Message>>, fates: (RoomId, Date) -> Fate)
      requires forall r | r in batch :: r in rows
      modifies this
      ensures State() == RoomsAfter(old(State()), batch, rows, dayOf, fates)
    {
      var j := 0;
      while j < |batch|
        invariant 0 <= j <= |batch|
        invariant RoomsAfter(old(State()), batch, rows, dayOf, fates) == RoomsAfter(State(), batch[j..], rows, dayOf, fates)
      {
        var room := batch[j];
        assert batch[j..][1..] == batch[j + 1..];
        ArchiveRoom(room, rows[room], fates);
        j := j + 1;
      }
    }

    /** `chats` and `rows` are the answer of the query for old messages. */
    method ArchiveOldMessages(cutoff: int, chats: seq<RoomId>, rows: map<RoomId, seq<Message>>, fates: (RoomId, Date) -> Fate)
      requires OldMessages(State(), chats, rows, cutoff)
      modifies this
      ensures State() == RoomsAfter(old(State()), chats, rows, dayOf, fates)
      ensures DbOk(old(State())) && Exact(fates, old(State())) ==> ArchiveRun(old(State()), State(), cutoff, dayOf)
    {
      ghost var start := State();
      var i := 0;
      while i < |chats|
        invariant 0 <= i
        invariant State() == RoomsAfter(start, chats[..if i < |chats| then i else |chats|], rows, dayOf, fates)
      {
        var end := if i + BATCH_SIZE <= |chats| then i + BATCH_SIZE else |chats|;
        RoomsAfterSplit(start, chats[..i], chats[i..end], rows, dayOf, fates);
        assert chats[..i] + chats[i..end] == chats[..end];
        ArchiveBatch(chats[i..end], rows, fates);
        i := i + BATCH_SIZE;
      }
      assert chats[..|chats|] == chats;
      if DbOk(start) && Exact(fates, start) {
        RoomsAfterKeeps(start, start, chats, chats, rows, cutoff, dayOf, fates);
      }
    }

    /**
     `listing` is the sorted answer of the storage, if it gave one; `readable` are the files it hands out;
     `failAt` is the chunk at which the database refuses, if it does.
     */
    method RestoreMessagesFromArchiveForChatRoom(room: RoomId, known: bool, listing: Option<seq<Slot>>, readable: set<Slot>,
                                                 users: set<UserId>, failAt: Option<nat>)
      returns (reply: RestoreReply)
      modifies this`db
      ensures !known ==> reply == RoomNotFound && db == old(db)
      ensures known && listing.None? ==> reply == ListingFailed && db == old(db)
      ensures known && listing.Some? ==> Replied(old(State()), db, room, listing.value, readable, users, failAt, reply)
    {
      if !known {
        return RoomNotFound;
      }
      if listing.None? {
        return ListingFailed;
      }
      var targets := listing.value;
      ghost var start := State();
      if |targets| == 0 {
        AllInserted(start, room, targets, readable, users, failAt);
        return Restored(0, 0, 0, 0, 0, 0);
      }
      var messages, wrongRoom, filesRead := CollectFromFiles(room, targets, readable);
      if |messages| == 0 {
        AllInserted(start, room, targets, readable, users, failAt);
        return Restored(|targets|, filesRead, 0, 0, wrongRoom, 0);
      }
      var senders := set e | e in messages :: e.content.sender;
      var missing := senders - users;
      if missing != {} {
        assert exists e | e in messages :: e.content.sender !in users by {
          var sender :| sender in missing;
        }
        return SendersMissing;
      }
      assert forall e | e in messages :: e.content.sender in senders && e.content.sender !in missing;
      AllInserted(start, room, targets, readable, users, failAt);
      var done, inserted := InsertChunks(messages, failAt);
      if !done {
        return InsertFailed;
      }
      return Restored(|targets|, filesRead, |messages|, inserted, wrongRoom,
        if |messages| > inserted then |messages| - inserted else 0);
    }

    /** The messages of one file, after those of the files `before`. */
    method CollectFromFile(room: RoomId, file: seq<Entry>, found: seq<Entry>, seen: map<MessageId, Entry>, ghost before: seq<Entry>)
      returns (messages: seq<Entry>, byId: map<MessageId, Entry>, wrong: nat)
      requires found == Firsts(before, room) && forall id :: id in seen <==> HasId(found, id)
      ensures messages == Firsts(before + file, room) && forall id :: id in byId <==> HasId(messages, id)
      ensures Misplaced(before, room) + wrong == Misplaced(before + file, room)
    {
      messages, byId, wrong := found, seen, 0;
      var j := 0;
      assert before + file[..0] == before;
      while j < |file|
        invariant 0 <= j <= |file|
        invariant messages == Firsts(before + file[..j], room)
        invariant Misplaced(before, room) + wrong == Misplaced(before + file[..j], room)
        invariant forall id :: id in byId <==> HasId(messages, id)
      {
        var m := file[j];
        assert (before + file[..j + 1])[..|before| + j] == before + file[..j];
        if m.room != room {
          wrong := wrong + 1;
        } else if m.id !in byId {
          byId := byId[m.id := m];
          HasIdNext(messages, m);
          messages := messages + [m];
        }
        j := j + 1;
      }
      assert file[..j] == file;
    }

    /** File after file, message after message, the first of each id. */
    method CollectFromFiles(room: RoomId, targets: seq<Slot>, readable: set<Slot>)
      returns (messages: seq<Entry>, wrongRoom: nat, filesRead: nat)
      ensures messages == Found(State(), room, targets, readable)
      ensures wrongRoom == Misplaced(Loaded(State(), room, targets, readable), room)
      ensures filesRead == FilesRead(State(), room, targets, readable)
    {
      var byId: map<MessageId, Entry> := map[];
      messages, wrongRoom, filesRead := [], 0, 0;
      var i := 0;
      while i < |targets|
        invariant 0 <= i <= |targets|
        invariant filesRead == FilesRead(State(), room, targets[..i], readable)
        invariant messages == Found(State(), room, targets[..i], readable)
        invariant wrongRoom == Misplaced(Loaded(State(), room, targets[..i], readable), room)
        invariant forall id :: id in byId <==> HasId(messages, id)
      {
        var slot := targets[i];
        ghost var before := Loaded(State(), room, targets[..i], readable);
        assert targets[..i + 1][..i] == targets[..i];
        if slot in readable && (room, slot) in files && |files[(room, slot)]| > 0 {
          assert IsRead(State(), room, slot, readable);
          filesRead := filesRead + 1;
          var wrong: nat;
          messages, byId, wrong := CollectFromFile(room, files[(room, slot)], messages, byId, before);
          wrongRoom := wrongRoom + wrong;
        } else {
          assert before + [] == before;
        }
        assert Loaded(State(), room, targets[..i + 1], readable)
          == before + if slot in readable && (room, slot) in files then files[(room, slot)] else [];
        i := i + 1;
      }
      assert targets[..i] == targets;
    }

    /** One insert for each chunk; the database may refuse one of them. */
    method InsertChunks(rows: seq<Entry>, failAt: Option<nat>) returns (done: bool, inserted: nat)
      modifies this`db
      ensures done ==> db == Insert(old(db), rows) && inserted == |db| - |old(db)|
      ensures !done ==>
        && failAt.Some? && failAt.value * CHUNK_SIZE < |rows|
        && db == Insert(old(db), rows[..failAt.value * CHUNK_SIZE])
    {
      inserted := 0;
      var i, chunkNumber := 0, 0;
      while i < |rows|
        invariant 0 <= i == chunkNumber * CHUNK_SIZE
        invariant db == Insert(old(db), rows[..if i < |rows| then i else |rows|])
        invariant inserted == |db| - |old(db)|
      {
        var end := if i + CHUNK_SIZE <= |rows| then i + CHUNK_SIZE else |rows|;
        var chunk := rows[i..end];
        if failAt == Some(chunkNumber) {
          return false, inserted;
        }
        InsertSize(db, chunk);
        InsertSplit(old(db), rows[..i], chunk);
        assert rows[..i] + chunk == rows[..end];
        var after := Insert(db, chunk);
        inserted := inserted + (|after| - |db|);
        db := after;
        i, chunkNumber := i + CHUNK_SIZE, chunkNumber + 1;
      }
      assert rows[..|rows|] == rows;
      return true, inserted;
    }
  }
}
