/**
 Who is shown online: the last socket each user registered, and one delayed timer per user that takes the user
 offline five seconds after a socket closed. Handlers run to completion, so each event is one step.
 */
module Presence {
  import opened Options

  type UserId = string
  type SocketId = nat

  const DELAY := 5000

  datatype Timer = Timer(socket: SocketId, due: int)

  /**
   `userSockets` and `timers` are the two maps of the gateway. The rest is history: who owns a registered socket,
   when it closed, which socket each user registered last, and when. A socket is `overtaken` if, while its timer was
   running and it was the one its user had registered last, another socket of the user closed.
   */
  datatype State = State(
    now: int,
    userSockets: map<UserId, SocketId>,
    timers: map<UserId, Timer>,
    owner: map<SocketId, UserId>,
    closedAt: map<SocketId, int>,
    latest: map<UserId, SocketId>,
    registeredAt: map<UserId, int>,
    overtaken: set<SocketId>)

  datatype Event =
    | Tick(to: int)
    | Connect(user: UserId, socket: SocketId)
    | Disconnect(socket: SocketId)
    | Fire(user: UserId)

  /** A socket registers once and closes once; one that closed before its token was checked may still register. */
  predicate Allowed(s: State, e: Event) {
    match e
    case Tick(to) => s.now <= to
    case Connect(_, socket) => socket !in s.owner
    case Disconnect(socket) => socket in s.owner && socket !in s.closedAt
    case Fire(u) => u in s.timers && s.timers[u].due <= s.now
  }

  function Connected(s: State, u: UserId, socket: SocketId): State {
    s.(userSockets := s.userSockets[u := socket], timers := s.timers - {u},
       owner := s.owner[socket := u], latest := s.latest[u := socket], registeredAt := s.registeredAt[u := s.now])
  }

  function Disconnected(s: State, socket: SocketId): State
    requires socket in s.owner
  {
    var u := s.owner[socket];
    s.(timers := s.timers[u := Timer(socket, s.now + DELAY)], closedAt := s.closedAt[socket := s.now],
       overtaken := s.overtaken + if u in s.timers && u in s.latest && s.timers[u].socket == s.latest[u] then {s.latest[u]} else {})
  }

  /** The timer does nothing if the user has registered another socket since. */
  function Fired(s: State, u: UserId): State
    requires u in s.timers
  {
    if u in s.userSockets && s.userSockets[u] == s.timers[u].socket
    then s.(userSockets := s.userSockets - {u}, timers := s.timers - {u})
    else s.(timers := s.timers - {u})
  }

  function Take(s: State, e: Event): State
    requires Allowed(s, e)
  {
    match e
    case Tick(to) => s.(now := to)
    case Connect(u, socket) => Connected(s, u, socket)
    case Disconnect(socket) => Disconnected(s, socket)
    case Fire(u) => Fired(s, u)
  }

  predicate Possible(s: State, events: seq<Event>)
    decreases |events|
  {
    events == [] || (Allowed(s, events[0]) && Possible(Take(s, events[0]), events[1..]))
  }

  function TakeAll(s: State, events: seq<Event>): State
    requires Possible(s, events)
    decreases |events|
  {
    if events == [] then s else TakeAll(Take(s, events[0]), events[1..])
  }

  function Start(now: int): State {
    State(now, map[], map[], map[], map[], map[], map[], {})
  }

  // ---------------------------------------------------------------- safety

  /** A user is shown with the socket they registered last. */
  predicate ShownLatest(s: State) {
    forall u | u in s.userSockets :: u in s.latest && s.userSockets[u] == s.latest[u]
  }

  /** A running timer belongs to a socket of its user that closed, with no registration of the user since. */
  predicate TimerOk(s: State, u: UserId)
    requires u in s.timers
  {
    var t := s.timers[u];
    && t.socket in s.owner && s.owner[t.socket] == u
    && t.socket in s.closedAt && t.due == s.closedAt[t.socket] + DELAY
    && u in s.registeredAt && s.registeredAt[u] <= s.closedAt[t.socket]
  }

  /** The user's last socket closed at least five seconds ago, and the user has registered none since it closed. */
  predicate LongGone(s: State, u: UserId)
    requires u in s.latest
  {
    && s.latest[u] in s.closedAt
    && s.closedAt[s.latest[u]] + DELAY <= s.now
    && u in s.registeredAt && s.registeredAt[u] <= s.closedAt[s.latest[u]]
  }

  predicate TimersOk(s: State) {
    forall u | u in s.timers :: TimerOk(s, u)
  }

  predicate OfflineOk(s: State) {
    forall u | u in s.latest && u !in s.userSockets :: LongGone(s, u)
  }

  /** The history is in order. */
  predicate BooksOk(s: State) {
    && (forall u | u in s.latest :: s.latest[u] in s.owner && s.owner[s.latest[u]] == u)
    && (forall u | u in s.latest :: u in s.registeredAt && s.registeredAt[u] <= s.now)
    && (forall k | k in s.owner :: s.owner[k] in s.latest)
    && (forall k | k in s.closedAt :: k in s.owner)
  }

  /** Where the timer of a closed last socket went: it is running, or it was overtaken, or it has fired. */
  predicate LastTimer(s: State, u: UserId)
    requires u in s.latest
  {
    if s.latest[u] !in s.closedAt then s.latest[u] !in s.overtaken
    else if s.latest[u] in s.overtaken then u in s.userSockets && (u in s.timers ==> s.timers[u].socket != s.latest[u])
    else u in s.userSockets <==> u in s.timers && s.timers[u].socket == s.latest[u]
  }

  predicate OvertakenOk(s: State) {
    && (forall k | k in s.overtaken :: k in s.closedAt)
    && (forall u | u in s.latest :: LastTimer(s, u))
  }

  predicate Inv(s: State) {
    ShownLatest(s) && TimersOk(s) && OfflineOk(s) && BooksOk(s) && OvertakenOk(s)
  }

  lemma TimersKept(s: State, e: Event)
    requires Inv(s) && Allowed(s, e)
    ensures TimersOk(Take(s, e))
  {
    var t := Take(s, e);
    forall u | u in t.timers ensures TimerOk(t, u) {
      if e.Disconnect? && s.owner[e.socket] == u {
        assert t.timers[u] == Timer(e.socket, s.now + DELAY);
      } else {
        assert TimerOk(s, u) && t.timers[u] == s.timers[u];
        assert e.Connect? ==> t.registeredAt[u] == s.registeredAt[u];
      }
    }
  }

  lemma OfflineKept(s: State, e: Event)
    requires Inv(s) && Allowed(s, e)
    ensures OfflineOk(Take(s, e))
  {
    var t := Take(s, e);
    forall u | u in t.latest && u !in t.userSockets ensures LongGone(t, u) {
      assert t.latest[u] == s.latest[u] && t.registeredAt[u] == s.registeredAt[u];
      if u !in s.userSockets {
        assert LongGone(s, u);
      } else {
        assert TimerOk(s, u);
      }
    }
  }

  lemma LastTimerAfterDisconnect(s: State, k: SocketId, u: UserId)
    requires TimersOk(s) && OfflineOk(s) && BooksOk(s) && u in s.latest && LastTimer(s, u)
    requires k in s.owner && k !in s.closedAt
    ensures LastTimer(Disconnected(s, k), u)
  {
    var v := s.owner[k];
    if u == v {
      assert u !in s.userSockets ==> LongGone(s, u);
      assert u in s.timers ==> TimerOk(s, u);
    } else {
      assert s.latest[v] != s.latest[u] && k != s.latest[u];
    }
  }

  lemma LastTimerAfterFire(s: State, v: UserId, u: UserId)
    requires ShownLatest(s) && u in s.latest && LastTimer(s, u) && v in s.timers
    ensures LastTimer(Fired(s, v), u)
  {
    if u != v {
      assert u in s.timers ==> u in Fired(s, v).timers && Fired(s, v).timers[u] == s.timers[u];
    }
  }

  lemma LastTimerKept(s: State, e: Event, u: UserId)
    requires Inv(s) && Allowed(s, e) && u in s.latest && !(e.Connect? && e.user == u)
    ensures LastTimer(Take(s, e), u)
  {
    assert LastTimer(s, u);
    match e {
      case Tick(_) =>
      case Connect(v, k) =>
        assert u in s.timers ==> u in Take(s, e).timers && Take(s, e).timers[u] == s.timers[u];
      case Disconnect(k) => LastTimerAfterDisconnect(s, k, u);
      case Fire(v) => LastTimerAfterFire(s, v, u);
    }
  }

  lemma OvertakenKept(s: State, e: Event)
    requires Inv(s) && Allowed(s, e)
    ensures OvertakenOk(Take(s, e))
  {
    var t := Take(s, e);
    assert forall k | k in s.overtaken :: k in s.closedAt && k in s.owner;
    forall u | u in t.latest ensures LastTimer(t, u) {
      if u in s.latest && !(e.Connect? && e.user == u) {
        LastTimerKept(s, e, u);
      }
    }
    forall k | k in t.overtaken ensures k in t.closedAt {
      if e.Disconnect? && k !in s.overtaken {
        assert TimerOk(s, s.owner[e.socket]);
      }
    }
  }

  lemma TakeKeeps(s: State, e: Event)
    requires Inv(s) && Allowed(s, e)
    ensures Inv(Take(s, e))
  {
    TimersKept(s, e);
    OfflineKept(s, e);
    OvertakenKept(s, e);
  }

  lemma {:induction false} RunKeeps(s: State, events: seq<Event>)
    requires Inv(s) && Possible(s, events)
    ensures Inv(TakeAll(s, events))
    decreases |events|
  {
    if events != [] {
      TakeKeeps(s, events[0]);
      RunKeeps(Take(s, events[0]), events[1..]);
    }
  }

  /**
   However sockets open and close, a user who has registered and is not shown online has had their last socket
   closed for five seconds, with no registration since it closed.
   */
  lemma OfflineMeansLongGone(now: int, events: seq<Event>, u: UserId)
    requires Possible(Start(now), events)
    ensures var t := TakeAll(Start(now), events); u in t.latest && u !in t.userSockets ==>
      && t.latest[u] in t.closedAt && t.closedAt[t.latest[u]] + 5000 <= t.now
      && u in t.registeredAt && t.registeredAt[u] <= t.closedAt[t.latest[u]]
  {
    RunKeeps(Start(now), events);
    var t := TakeAll(Start(now), events);
    assert u in t.latest && u !in t.userSockets ==> LongGone(t, u);
  }

  /** So a user whose last socket is open is shown online. */
  lemma OpenIsOnline(now: int, events: seq<Event>, u: UserId)
    requires Possible(Start(now), events)
    ensures var t := TakeAll(Start(now), events); u in t.latest && t.latest[u] !in t.closedAt ==> u in t.userSockets
  {
    OfflineMeansLongGone(now, events, u);
  }

  // ---------------------------------------------------------------- liveness is not guaranteed

  /** Nobody is left to take the user offline. */
  predicate Stuck(s: State, u: UserId) {
    && u in s.userSockets && u !in s.timers
    && forall k | k in s.owner && s.owner[k] == u :: k in s.closedAt
  }

  /** The timer that fires last takes the user offline exactly when it is the one of the socket registered last. */
  lemma LastTimerWorksExactlyWhen(s: State, u: UserId)
    requires Inv(s) && u in s.timers && s.timers[u].due <= s.now && u in s.userSockets
    requires forall k | k in s.owner && s.owner[k] == u :: k in s.closedAt
    ensures s.timers[u].socket == s.latest[u] <==> u !in Take(s, Fire(u)).userSockets
    ensures s.timers[u].socket != s.latest[u] <==> Stuck(Take(s, Fire(u)), u)
  {
  }

  predicate NotOf(e: Event, u: UserId) {
    e.Connect? ==> e.user != u
  }

  lemma StuckStep(s: State, e: Event, u: UserId)
    requires BooksOk(s) && Stuck(s, u) && Allowed(s, e) && NotOf(e, u)
    ensures Stuck(Take(s, e), u)
  {
  }

  /** A stuck user stays online until they connect again. */
  lemma {:induction false} StuckStays(s: State, events: seq<Event>, u: UserId)
    requires Inv(s) && Stuck(s, u) && Possible(s, events) && forall i | 0 <= i < |events| :: NotOf(events[i], u)
    ensures Stuck(TakeAll(s, events), u)
    decreases |events|
  {
    if events != [] {
      var t := Take(s, events[0]);
      TakeKeeps(s, events[0]);
      assert NotOf(events[0], u);
      StuckStep(s, events[0], u);
      assert forall i | 0 <= i < |events| - 1 :: events[1..][i] == events[i + 1];
      StuckStays(t, events[1..], u);
    }
  }

  /**
   Over every run: when the last socket of a user has closed and no timer of theirs is running, the user is still
   shown online if and only if another of their sockets closed while the timer of the last one was running.
   */
  lemma StaysOnlineExactlyWhen(now: int, events: seq<Event>, u: UserId)
    requires Possible(Start(now), events)
    ensures var t := TakeAll(Start(now), events);
      u in t.latest && t.latest[u] in t.closedAt && u !in t.timers ==>
        (u in t.userSockets <==> t.latest[u] in t.overtaken)
  {
    RunKeeps(Start(now), events);
    var t := TakeAll(Start(now), events);
    assert u in t.latest ==> LastTimer(t, u);
  }

  lemma {:induction false} TakeAppend(s: State, events: seq<Event>, e: Event)
    requires Possible(s, events) && Allowed(TakeAll(s, events), e)
    ensures Possible(s, events + [e]) && TakeAll(s, events + [e]) == Take(TakeAll(s, events), e)
    decreases |events|
  {
    if events == [] {
      assert (events + [e])[1..] == [];
    } else {
      assert (events + [e])[1..] == events[1..] + [e];
      TakeAppend(Take(s, events[0]), events[1..], e);
    }
  }

  /** Two sockets, the older one closing within the five seconds of the newer one. */
  function WrongOrder(now: int, u: UserId, a: SocketId, b: SocketId): seq<Event> {
    [Connect(u, a), Connect(u, b), Disconnect(b), Disconnect(a), Tick(now + DELAY), Fire(u)]
  }

  /** A user who closes two sockets in the wrong order is stuck: this happens, for every user and pair of sockets. */
  lemma WrongOrderSticks(now: int, u: UserId, a: SocketId, b: SocketId)
    requires a != b
    ensures Possible(Start(now), WrongOrder(now, u, a, b)) && Stuck(TakeAll(Start(now), WrongOrder(now, u, a, b)), u)
  {
    var s, all := Start(now), WrongOrder(now, u, a, b);
    TakeAppend(s, [], all[0]);
    TakeAppend(s, [] + [all[0]], all[1]);
    TakeAppend(s, [] + [all[0]] + [all[1]], all[2]);
    TakeAppend(s, [] + [all[0]] + [all[1]] + [all[2]], all[3]);
    TakeAppend(s, [] + [all[0]] + [all[1]] + [all[2]] + [all[3]], all[4]);
    TakeAppend(s, [] + [all[0]] + [all[1]] + [all[2]] + [all[3]] + [all[4]], all[5]);
    assert all == [] + [all[0]] + [all[1]] + [all[2]] + [all[3]] + [all[4]] + [all[5]];
  }

  /** The newer socket closes, its timer fires, and only then the older one closes. */
  function LateClose(now: int, u: UserId, a: SocketId, b: SocketId): seq<Event> {
    [Connect(u, a), Connect(u, b), Disconnect(b), Tick(now + DELAY), Fire(u), Disconnect(a)]
  }

  /** That the socket closed last is the one registered last is not the condition: here it is not, and the user is offline. */
  lemma LateCloseIsHarmless(now: int, u: UserId, a: SocketId, b: SocketId)
    requires a != b
    ensures Possible(Start(now), LateClose(now, u, a, b))
    ensures var t := TakeAll(Start(now), LateClose(now, u, a, b));
      && u !in t.userSockets && u in t.latest && t.latest[u] == b
      && a in t.closedAt && b in t.closedAt && t.closedAt[b] < t.closedAt[a]
  {
    var s, all := Start(now), LateClose(now, u, a, b);
    TakeAppend(s, [], all[0]);
    TakeAppend(s, [] + [all[0]], all[1]);
    TakeAppend(s, [] + [all[0]] + [all[1]], all[2]);
    TakeAppend(s, [] + [all[0]] + [all[1]] + [all[2]], all[3]);
    TakeAppend(s, [] + [all[0]] + [all[1]] + [all[2]] + [all[3]], all[4]);
    TakeAppend(s, [] + [all[0]] + [all[1]] + [all[2]] + [all[3]] + [all[4]], all[5]);
    assert all == [] + [all[0]] + [all[1]] + [all[2]] + [all[3]] + [all[4]] + [all[5]];
  }

  // ---------------------------------------------------------------- the gateway

  class ChatGateway {
    var userSockets: map<UserId, SocketId>
    var offlineTimeouts: map<UserId, Timer>

    constructor ()
      ensures userSockets == map[] && offlineTimeouts == map[]
    {
      userSockets, offlineTimeouts := map[], map[];
    }

    /** The gateway holds what the state says. */
    predicate Shows(s: State)
      reads this
    {
      userSockets == s.userSockets && offlineTimeouts == s.timers
    }

    method HandleConnection(ghost s: State, u: UserId, socket: SocketId)
      requires Shows(s) && Allowed(s, Connect(u, socket))
      modifies this
      ensures Shows(Take(s, Connect(u, socket)))
    {
      userSockets := userSockets[u := socket];
      if u in offlineTimeouts {
        offlineTimeouts := offlineTimeouts - {u};
      }
      assert s.timers - {u} == offlineTimeouts;
    }

    /** `user` is what the connection stored on the client object, if it got that far. */
    method HandleDisconnect(ghost s: State, user: Option<UserId>, socket: SocketId, now: int)
      requires Shows(s) && now == s.now
      requires user.Some? ==> Allowed(s, Disconnect(socket)) && s.owner[socket] == user.value
      modifies this
      ensures Shows(if user.Some? then Take(s, Disconnect(socket)) else s)
    {
      if user.None? {
        return;
      }
      var u := user.value;
      if u in offlineTimeouts {
        offlineTimeouts := offlineTimeouts - {u};
      }
      offlineTimeouts := offlineTimeouts[u := Timer(socket, now + DELAY)];
      assert offlineTimeouts == s.timers[u := Timer(socket, now + DELAY)];
    }

    method OfflineTimeout(ghost s: State, u: UserId, disconnectedSocket: SocketId)
      requires Shows(s) && Allowed(s, Fire(u)) && s.timers[u].socket == disconnectedSocket
      modifies this
      ensures Shows(Take(s, Fire(u)))
    {
      if u !in userSockets || userSockets[u] != disconnectedSocket {
        offlineTimeouts := offlineTimeouts - {u};
        return;
      }
      userSockets := userSockets - {u};
      offlineTimeouts := offlineTimeouts - {u};
    }
  }
}
