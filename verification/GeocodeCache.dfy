/**
 The double-checked cache before the exclusive geocoding queue: one look before queueing, one when the job's
 turn comes. Keys are rounded coordinates; times are milliseconds.
 */
module GeocodeCache {
  import opened Options

  type Key = string

  const TTL := 24 * 60 * 60 * 1000

  /** A fetch that ended with a stored value, possibly the empty one. */
  datatype Fetch = Fetch(key: Key, start: int, end: int)

  /** `active` is the job whose fetch is awaited, with the time it began. */
  datatype Geo = Geo(now: int, expires: map<Key, int>, queue: seq<Key>, active: Option<(Key, int)>, fetches: seq<Fetch>)

  datatype Turn =
    | Tick(to: int)
    | Request(key: Key)
    | FetchStored
    | FetchFailed

  predicate Cached(g: Geo, key: Key) {
    key in g.expires && g.now <= g.expires[key]
  }

  /** Looking drops an entry that has expired. */
  function Looked(g: Geo, key: Key): Geo {
    if key in g.expires && !Cached(g, key) then g.(expires := g.expires - {key}) else g
  }

  /** The drain loop: jobs that now hit the cache are answered, the first miss starts its fetch. */
  function DrainOn(g: Geo): Geo
    requires g.active.None?
    decreases |g.queue|
  {
    if g.queue == [] then g
    else
      var key := g.queue[0];
      var h := Looked(g, key).(queue := g.queue[1..]);
      if Cached(g, key) then DrainOn(h) else h.(active := Some((key, g.now)))
  }

  predicate Allowed(g: Geo, t: Turn) {
    match t
    case Tick(to) => g.now <= to
    case Request(_) => true
    case FetchStored => g.active.Some?
    case FetchFailed => g.active.Some?
  }

  /** The active fetch has ended with a value, which is stored. */
  function AfterFetch(g: Geo): Geo
    requires g.active.Some?
  {
    var (key, start) := g.active.value;
    g.(expires := g.expires[key := g.now + TTL], active := None, fetches := g.fetches + [Fetch(key, start, g.now)])
  }

  function Take(g: Geo, t: Turn): Geo
    requires Allowed(g, t)
  {
    match t
    case Tick(to) => g.(now := to)
    case Request(key) =>
      var h := Looked(g, key);
      if Cached(g, key) then h
      else
        var waiting := h.(queue := h.queue + [key]);
        if waiting.active.None? then DrainOn(waiting) else waiting
    case FetchStored => DrainOn(AfterFetch(g))
    case FetchFailed =>
      DrainOn(g.(active := None))
  }

  predicate Possible(g: Geo, turns: seq<Turn>)
    decreases |turns|
  {
    turns == [] || (Allowed(g, turns[0]) && Possible(Take(g, turns[0]), turns[1..]))
  }

  function TakeAll(g: Geo, turns: seq<Turn>): Geo
    requires Possible(g, turns)
    decreases |turns|
  {
    if turns == [] then g else TakeAll(Take(g, turns[0]), turns[1..])
  }

  /** A stored fetch is remembered by the cache until it has expired. */
  predicate Remembered(g: Geo, f: Fetch, time: int) {
    (f.key in g.expires && f.end + TTL <= g.expires[f.key]) || f.end + TTL < time
  }

  predicate Inv(g: Geo) {
    && (forall i | 0 <= i < |g.fetches| :: g.fetches[i].start <= g.fetches[i].end <= g.now && Remembered(g, g.fetches[i], g.now))
    && (g.active.Some? ==>
          && g.active.value.1 <= g.now
          && forall i | 0 <= i < |g.fetches| :: g.fetches[i].key == g.active.value.0 ==> g.fetches[i].end + TTL < g.active.value.1)
    && (forall i, j | 0 <= i < j < |g.fetches| ::
          g.fetches[i].key == g.fetches[j].key ==> g.fetches[i].end + TTL < g.fetches[j].start)
  }

  lemma {:induction false} DrainKeeps(g: Geo)
    requires Inv(g) && g.active.None?
    ensures Inv(DrainOn(g))
    decreases |g.queue|
  {
    if g.queue != [] {
      var key := g.queue[0];
      var h := Looked(g, key).(queue := g.queue[1..]);
      assert Inv(h) by {
        assert forall i | 0 <= i < |g.fetches| :: Remembered(g, g.fetches[i], g.now) ==> Remembered(h, g.fetches[i], g.now);
      }
      if Cached(g, key) {
        DrainKeeps(h);
      } else {
        forall i | 0 <= i < |g.fetches| && g.fetches[i].key == key ensures g.fetches[i].end + TTL < g.now {
          assert Remembered(g, g.fetches[i], g.now);
        }
      }
    }
  }

  /** Queueing a job after a miss. */
  lemma QueuedKeeps(g: Geo, key: Key)
    requires Inv(g)
    ensures Inv(Looked(g, key)) && Inv(Looked(g, key).(queue := g.queue + [key]))
  {
    var h := Looked(g, key);
    assert forall i | 0 <= i < |g.fetches| :: Remembered(g, g.fetches[i], g.now) ==> Remembered(h, g.fetches[i], g.now);
    var w := h.(queue := g.queue + [key]);
    assert forall i | 0 <= i < |g.fetches| :: Remembered(h, g.fetches[i], g.now) ==> Remembered(w, g.fetches[i], g.now);
  }

  /** Storing the result of the active fetch. */
  lemma StoredKeeps(g: Geo, key: Key, start: int, h: Geo)
    requires Inv(g) && g.active == Some((key, start))
    requires h == g.(expires := g.expires[key := g.now + TTL], active := None, fetches := g.fetches + [Fetch(key, start, g.now)])
    ensures Inv(h)
  {
    forall i | 0 <= i < |h.fetches| ensures h.fetches[i].start <= h.fetches[i].end <= h.now && Remembered(h, h.fetches[i], h.now) {
      if i < |g.fetches| {
        assert h.fetches[i] == g.fetches[i] && Remembered(g, g.fetches[i], g.now);
      }
    }
  }

  lemma TakeKeeps(g: Geo, t: Turn)
    requires Inv(g) && Allowed(g, t)
    ensures Inv(Take(g, t))
  {
    match t {
      case Tick(to) =>
        assert forall i | 0 <= i < |g.fetches| :: Remembered(g, g.fetches[i], g.now) ==> Remembered(g.(now := to), g.fetches[i], to);
      case Request(key) =>
        QueuedKeeps(g, key);
        var h := Looked(g, key).(queue := g.queue + [key]);
        if h.active.None? {
          DrainKeeps(h);
        }
      case FetchStored =>
        var (key, start) := g.active.value;
        StoredKeeps(g, key, start, AfterFetch(g));
        DrainKeeps(AfterFetch(g));
      case FetchFailed =>
        var h := g.(active := None);
        assert forall i | 0 <= i < |g.fetches| :: Remembered(g, g.fetches[i], g.now) ==> Remembered(h, g.fetches[i], g.now);
        DrainKeeps(h);
    }
  }

  lemma {:induction false} RunKeeps(g: Geo, turns: seq<Turn>)
    requires Inv(g) && Possible(g, turns)
    ensures Inv(TakeAll(g, turns))
    decreases |turns|
  {
    if turns != [] {
      TakeKeeps(g, turns[0]);
      RunKeeps(Take(g, turns[0]), turns[1..]);
    }
  }

  /**
   However requests for one place crowd in, a fetch of it starts only when more than a day has passed since the
   last one that was stored.
   */
  lemma OneFetchPerDay(now: int, turns: seq<Turn>)
    requires Possible(Geo(now, map[], [], None, []), turns)
    ensures var g := TakeAll(Geo(now, map[], [], None, []), turns);
      forall i, j | 0 <= i < j < |g.fetches| ::
        g.fetches[i].key == g.fetches[j].key ==> g.fetches[i].end + 24 * 60 * 60 * 1000 < g.fetches[j].start
  {
    RunKeeps(Geo(now, map[], [], None, []), turns);
  }

  // ---------------------------------------------------------------- the cache object

  class HereCache {
    var cache: map<Key, int>

    constructor ()
      ensures cache == map[]
    {
      cache := map[];
    }

    /** A hit is an entry that has not expired; looking at an expired one drops it. */
    method GetCached(ghost g: Geo, key: Key, now: int) returns (hit: bool)
      requires cache == g.expires && now == g.now
      modifies this
      ensures hit == Cached(g, key) && cache == Looked(g, key).expires
    {
      if key !in cache {
        return false;
      }
      if now > cache[key] {
        cache := cache - {key};
        return false;
      }
      return true;
    }

    /**
     Storing the result of the active fetch: from now on a look at this place hits for exactly one lifetime, at
     whatever later time it comes, and what every other place gets is unchanged.
     */
    method SetCached(ghost g: Geo, key: Key, now: int)
      requires cache == g.expires && now == g.now && g.active.Some? && g.active.value.0 == key
      modifies this
      ensures cache == AfterFetch(g).expires
      ensures forall later | now <= later :: Cached(AfterFetch(g).(now := later), key) <==> later <= now + 24 * 60 * 60 * 1000
      ensures forall later, other | other != key ::
        Cached(AfterFetch(g).(now := later), other) <==> Cached(g.(now := later), other)
    {
      cache := cache[key := now + TTL];
    }
  }
}
