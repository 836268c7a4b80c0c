/**
 The two stores of chat messages, the database table and the archive files, and what moves between them. A run
 of the archiver may fail at any step; a restore may fail too. The relations of this module say what each may do
 to the pair of stores; the methods that do it are in module ArchiveService.
 */
module MessageArchive {
  import opened Options

  type MessageId = string
  type RoomId = string
  type UserId = string

  datatype Date = Date(year: int, month: int, day: int)

  /** A daily file, or a monthly one of the older layout. */
  datatype Slot = Daily(date: Date) | Monthly(year: int, month: int)

  type FileKey = (RoomId, Slot)

  /** What an archive file keeps of a message besides its id, room and date. */
  datatype Content = Content(
    sender: UserId, text: string, fileUrl: Option<string>, fileName: Option<string>, fileSize: Option<int>, isRead: bool)

  /** What it does not keep. */
  datatype Extras = Extras(
    receiverId: Option<UserId>, clientMessageId: Option<string>, attachments: Option<string>,
    readBy: Option<seq<UserId>>, replyData: Option<string>, isSystemMessage: bool)

  const BLANK := Extras(None, None, None, None, None, false)

  datatype Message = Message(id: MessageId, room: RoomId, createdAt: Option<int>, content: Content, extras: Extras)

  datatype Entry = Entry(id: MessageId, room: RoomId, createdAt: int, content: Content)

  datatype Store = Store(db: map<MessageId, Message>, files: map<FileKey, seq<Entry>>)

  function AsEntry(m: Message): Entry
    requires m.createdAt.Some?
  {
    Entry(m.id, m.room, m.createdAt.value, m.content)
  }

  function RestoredRow(e: Entry): Message {
    Message(e.id, e.room, Some(e.createdAt), e.content, BLANK)
  }

  /** The date column is never null, and rows are found by their id. */
  predicate DbOk(s: Store) {
    forall id | id in s.db :: s.db[id].id == id && s.db[id].createdAt.Some?
  }

  predicate InDb(s: Store, e: Entry) {
    e.id in s.db && s.db[e.id].createdAt.Some? && AsEntry(s.db[e.id]) == e
  }

  predicate InFile(s: Store, e: Entry, k: FileKey) {
    k in s.files && e in s.files[k]
  }

  ghost predicate InSomeFile(s: Store, e: Entry) {
    exists k :: InFile(s, e, k)
  }

  ghost predicate Stored(s: Store, e: Entry) {
    InDb(s, e) || InSomeFile(s, e)
  }

  // ---------------------------------------------------------------- one day of one room

  datatype Upload = Uploaded | UploadedButFailed | UploadRefused

  datatype Delete = Deleted | DeletedButFailed | DeleteRefused

  /** What happens at each step: `found` and `verified` are what the two existence checks report. */
  datatype Fate = Fate(found: bool, upload: Upload, verified: bool, delete: Delete)

  function IdsOf(entries: seq<Entry>): set<MessageId> {
    set e | e in entries :: e.id
  }

  /** The new stores, and whether no error was thrown. */
  function MoveDay(s: Store, room: RoomId, date: Date, entries: seq<Entry>, fate: Fate): (Store, bool) {
    if fate.upload == UploadRefused then (s, false)
    else
      var uploaded := s.(files := s.files[(room, Daily(date)) := entries]);
      if fate.upload == UploadedButFailed || !fate.verified then (uploaded, false)
      else if fate.delete == DeleteRefused then (uploaded, false)
      else (uploaded.(db := s.db - IdsOf(entries)), fate.delete == Deleted)
  }

  function ArchiveDay(s: Store, room: RoomId, date: Date, entries: seq<Entry>, fate: Fate): (Store, bool) {
    if fate.found then (s, true) else MoveDay(s, room, date, entries, fate)
  }

  /**
   Whatever fails, a stored message is lost exactly when the check missed an existing file of the day, the upload
   replaced that file, and the message was nowhere else.
   */
  lemma LostExactlyWhen(s: Store, room: RoomId, date: Date, entries: seq<Entry>, fate: Fate, e: Entry)
    requires forall x | x in entries :: InDb(s, x)
    requires Stored(s, e)
    ensures !Stored(ArchiveDay(s, room, date, entries, fate).0, e) <==>
      && !fate.found
      && fate.upload != UploadRefused
      && InFile(s, e, (room, Daily(date)))
      && !InDb(s, e)
      && (forall k | k in s.files && k != (room, Daily(date)) :: !InFile(s, e, k))
  {
    var t := ArchiveDay(s, room, date, entries, fate).0;
    var here := (room, Daily(date));
    if t != s {
      assert here in t.files && t.files[here] == entries;
      if InDb(s, e) {
        if e.id in IdsOf(entries) {
          var x :| x in entries && x.id == e.id;
          assert x == e && InFile(t, e, here);
        } else {
          assert InDb(t, e);
        }
      }
      if k :| InFile(s, e, k) && k != here {
        assert InFile(t, e, k);
      }
      if InFile(t, e, here) {
        assert InDb(s, e);
      }
      if k :| InFile(t, e, k) && k != here {
        assert InFile(s, e, k);
      }
    }
  }

  // ---------------------------------------------------------------- a run of the archiver

  /** The message lies in the file of its own room and day. */
  predicate Moved(s: Store, m: Message, dayOf: int -> Date)
    requires m.createdAt.Some?
  {
    InFile(s, AsEntry(m), (m.room, Daily(dayOf(m.createdAt.value))))
  }

  predicate NewFileOk(a: Store, k: FileKey, entries: seq<Entry>, cutoff: int, dayOf: int -> Date) {
    && k.1.Daily?
    && forall e | e in entries :: InDb(a, e) && e.room == k.0 && e.createdAt < cutoff && dayOf(e.createdAt) == k.1.date
  }

  /**
   Rows only leave the table, files are only added; a row that left is old, and lies in a file of its own room
   and day that is new; new files hold nothing else than rows of the table.
   */
  predicate ArchiveRun(a: Store, b: Store, cutoff: int, dayOf: int -> Date) {
    && (forall id | id in b.db :: id in a.db && b.db[id] == a.db[id])
    && (forall k | k in a.files :: k in b.files && b.files[k] == a.files[k])
    && (forall id | id in a.db && id !in b.db ::
          && a.db[id].createdAt.Some? && a.db[id].createdAt.value < cutoff
          && Moved(b, a.db[id], dayOf)
          && (a.db[id].room, Daily(dayOf(a.db[id].createdAt.value))) !in a.files)
    && (forall k | k in b.files && k !in a.files :: NewFileOk(a, k, b.files[k], cutoff, dayOf))
  }

  /** One more day, whatever happens in it, as long as the check sees what is there. */
  lemma DayKeepsRun(a: Store, b: Store, room: RoomId, date: Date, entries: seq<Entry>, fate: Fate, cutoff: int, dayOf: int -> Date)
    requires DbOk(a) && ArchiveRun(a, b, cutoff, dayOf)
    requires NewFileOk(a, (room, Daily(date)), entries, cutoff, dayOf)
    requires fate.found || (room, Daily(date)) !in b.files
    ensures ArchiveRun(a, ArchiveDay(b, room, date, entries, fate).0, cutoff, dayOf)
  {
    var c := ArchiveDay(b, room, date, entries, fate).0;
    var here := (room, Daily(date));
    if c != b {
      assert here !in a.files;
      forall id | id in a.db && id !in c.db
        ensures a.db[id].createdAt.Some? && a.db[id].createdAt.value < cutoff && Moved(c, a.db[id], dayOf)
          && (a.db[id].room, Daily(dayOf(a.db[id].createdAt.value))) !in a.files
      {
        if id in b.db {
          var e :| e in entries && e.id == id;
          assert AsEntry(a.db[id]) == e && InFile(c, e, here);
        } else {
          assert Moved(b, a.db[id], dayOf);
          assert (a.db[id].room, Daily(dayOf(a.db[id].createdAt.value))) != here;
        }
      }
    }
  }

  lemma NothingLost(a: Store, b: Store, cutoff: int, dayOf: int -> Date, e: Entry)
    requires DbOk(a) && ArchiveRun(a, b, cutoff, dayOf) && Stored(a, e)
    ensures Stored(b, e)
  {
    if InDb(a, e) && e.id !in b.db {
      assert Moved(b, a.db[e.id], dayOf);
    } else if InSomeFile(a, e) {
      var k :| InFile(a, e, k);
      assert InFile(b, e, k);
    }
  }

  /** Once a day has its file, no later run takes another message of that day out of the table. */
  lemma PartlyArchivedDayStays(a: Store, b: Store, cutoff: int, dayOf: int -> Date, id: MessageId)
    requires DbOk(a) && ArchiveRun(a, b, cutoff, dayOf) && id in a.db
    requires (a.db[id].room, Daily(dayOf(a.db[id].createdAt.value))) in a.files
    ensures id in b.db && b.db[id] == a.db[id]
    ensures (b.db[id].room, Daily(dayOf(b.db[id].createdAt.value))) in b.files
  {
    assert id in b.db;
  }

  // ---------------------------------------------------------------- a restore

  /** Files stay; rows are only added, each made from an entry of some file. */
  ghost predicate RestoreRun(a: Store, b: Store) {
    && b.files == a.files
    && (forall id | id in a.db :: id in b.db && b.db[id] == a.db[id])
    && (forall id | id in b.db && id !in a.db ::
          exists e: Entry :: e.id == id && InSomeFile(a, e) && b.db[id] == RestoredRow(e))
  }

  /** Every archived message of the room is back in the table. */
  ghost predicate AllBack(s: Store, room: RoomId) {
    forall k, e | InFile(s, e, k) && k.0 == room && e.room == room :: e.id in s.db
  }

  // ---------------------------------------------------------------- runs of both

  /** All copies of a message agree. */
  ghost predicate Agreeing(s: Store) {
    forall x, y | Stored(s, x) && Stored(s, y) && x.id == y.id :: x == y
  }

  ghost predicate Sent(a: Store, b: Store, m: Message) {
    && m.createdAt.Some?
    && (forall e | Stored(a, e) :: e.id != m.id)
    && m.id !in a.db
    && b == a.(db := a.db[m.id := m])
  }

  datatype Change = Archiving(cutoff: int) | Restoring | Sending(message: Message)

  ghost predicate Step(a: Store, b: Store, change: Change, dayOf: int -> Date) {
    match change
    case Archiving(cutoff) => ArchiveRun(a, b, cutoff, dayOf)
    case Restoring => RestoreRun(a, b)
    case Sending(m) => Sent(a, b, m)
  }

  ghost predicate Inv(s: Store) {
    DbOk(s) && Agreeing(s)
  }

  lemma NothingNewArchived(a: Store, b: Store, cutoff: int, dayOf: int -> Date, e: Entry)
    requires DbOk(a) && ArchiveRun(a, b, cutoff, dayOf) && Stored(b, e)
    ensures Stored(a, e)
  {
    if InDb(b, e) {
      assert InDb(a, e);
    } else {
      var k :| InFile(b, e, k);
      if k in a.files {
        assert InFile(a, e, k);
      } else {
        assert NewFileOk(a, k, b.files[k], cutoff, dayOf);
      }
    }
  }

  lemma SameStoredRestored(a: Store, b: Store, e: Entry)
    requires DbOk(a) && RestoreRun(a, b)
    ensures Stored(a, e) <==> Stored(b, e)
  {
    if k :| InFile(a, e, k) {
      assert InFile(b, e, k);
    }
    if k :| InFile(b, e, k) {
      assert InFile(a, e, k);
    }
    if InDb(b, e) && e.id !in a.db {
      var x: Entry :| x.id == e.id && InSomeFile(a, x) && b.db[e.id] == RestoredRow(x);
      assert x == e;
    }
  }

  lemma SentStored(a: Store, b: Store, m: Message, e: Entry)
    requires DbOk(a) && Sent(a, b, m)
    ensures Stored(b, e) <==> Stored(a, e) || e == AsEntry(m)
  {
    if k :| InFile(a, e, k) {
      assert InFile(b, e, k);
    }
    if k :| InFile(b, e, k) {
      assert InFile(a, e, k);
    }
  }

  lemma StepKeepsMessages(a: Store, b: Store, change: Change, dayOf: int -> Date)
    requires Inv(a) && Step(a, b, change, dayOf)
    ensures Inv(b)
    ensures forall e | Stored(a, e) :: Stored(b, e)
  {
    match change
    case Archiving(cutoff) =>
      forall e | Stored(a, e) ensures Stored(b, e) {
        NothingLost(a, b, cutoff, dayOf, e);
      }
      forall x, y | Stored(b, x) && Stored(b, y) && x.id == y.id ensures x == y {
        NothingNewArchived(a, b, cutoff, dayOf, x);
        NothingNewArchived(a, b, cutoff, dayOf, y);
      }
    case Restoring =>
      forall e ensures Stored(a, e) <==> Stored(b, e) {
        SameStoredRestored(a, b, e);
      }
    case Sending(m) =>
      forall e ensures Stored(b, e) <==> Stored(a, e) || e == AsEntry(m) {
        SentStored(a, b, m, e);
      }
  }

  ghost predicate IsRun(stores: seq<Store>, changes: seq<Change>, dayOf: int -> Date) {
    && |stores| == |changes| + 1
    && forall i | 0 <= i < |changes| :: Step(stores[i], stores[i + 1], changes[i], dayOf)
  }

  /** Over any run of archiving, restoring and sending, a message once stored stays stored, with the same content. */
  lemma {:induction false} NeverLost(stores: seq<Store>, changes: seq<Change>, dayOf: int -> Date, i: nat, j: nat, e: Entry)
    requires IsRun(stores, changes, dayOf) && Inv(stores[0])
    requires i <= j < |stores| && Stored(stores[i], e)
    ensures Stored(stores[j], e) && Inv(stores[j])
    decreases j
  {
    if j == 0 {
    } else if i == j {
      InvAt(stores, changes, dayOf, j);
    } else {
      NeverLost(stores, changes, dayOf, i, j - 1, e);
      StepKeepsMessages(stores[j - 1], stores[j - 1 + 1], changes[j - 1], dayOf);
    }
  }

  lemma {:induction false} InvAt(stores: seq<Store>, changes: seq<Change>, dayOf: int -> Date, j: nat)
    requires IsRun(stores, changes, dayOf) && Inv(stores[0]) && j < |stores|
    ensures Inv(stores[j])
  {
    if j > 0 {
      InvAt(stores, changes, dayOf, j - 1);
      StepKeepsMessages(stores[j - 1], stores[j - 1 + 1], changes[j - 1], dayOf);
    }
  }

  /**
   However a run of the archiver failed, a full restore gives the room its messages back: the same sender, text,
   file and date; what was not archived is untouched, and of the rest exactly the unkept columns are blank.
   */
  lemma RoundTrip(a: Store, b: Store, c: Store, cutoff: int, dayOf: int -> Date, room: RoomId, id: MessageId)
    requires Inv(a) && ArchiveRun(a, b, cutoff, dayOf) && RestoreRun(b, c) && AllBack(c, room)
    requires id in a.db && a.db[id].room == room
    ensures id in c.db && c.db[id] == if id in b.db then a.db[id] else a.db[id].(extras := BLANK)
  {
    if id !in b.db {
      var e := AsEntry(a.db[id]);
      var k := (room, Daily(dayOf(e.createdAt)));
      assert Moved(b, a.db[id], dayOf) && InFile(b, e, k) && InFile(c, e, k);
      var x: Entry :| x.id == id && InSomeFile(b, x) && c.db[id] == RestoredRow(x);
      NothingNewArchived(a, b, cutoff, dayOf, x);
      assert InDb(a, e);
      assert x == e;
    }
  }
}
