/** The three expiring caches (tokens, networks, memory) against the history of their Sets, and the race
    between a Get's delete and a concurrent Set. Times and durations in nanoseconds. */
module Caches {
  import opened Common

  datatype Entry<V> = Entry(value: V, expiresAt: int)

  /** One Set as it happened. */
  datatype SetEvent<V> = SetEvent(key: string, value: V, expiresAt: int)

  const TOKEN_MARGIN: int := 5 * MINUTE

  /** What the stored entries answer for a key at a time. */
  function Answer<V>(entries: map<string, Entry<V>>, key: string, now: int): Option<V> {
    if key in entries && now < entries[key].expiresAt then Some(entries[key].value) else None
  }

  /** The latest Set of a key. */
  function Latest<V>(history: seq<SetEvent<V>>, key: string): Option<SetEvent<V>> {
    if history == [] then None
    else if history[|history| - 1].key == key then Some(history[|history| - 1])
    else Latest(history[..|history| - 1], key)
  }

  /** What a cache should answer: the latest Set's value while it has not expired. */
  function Expected<V>(history: seq<SetEvent<V>>, key: string, now: int): Option<V> {
    var e := Latest(history, key);
    if e.Some? && now < e.value.expiresAt then Some(e.value.value) else None
  }

  /** From `now` on the entries answer as the history says. */
  ghost predicate Agrees<V>(entries: map<string, Entry<V>>, history: seq<SetEvent<V>>, now: int) {
    forall key, t | t >= now :: Answer(entries, key, t) == Expected(history, key, t)
  }

  function StoreEntry<V>(entries: map<string, Entry<V>>, key: string, value: V, expiresAt: int)
    : map<string, Entry<V>>
  {
    entries[key := Entry(value, expiresAt)]
  }

  /** Get's delete-on-read: an expired entry goes. */
  function DropIfExpired<V>(entries: map<string, Entry<V>>, key: string, now: int): map<string, Entry<V>> {
    if key in entries && now >= entries[key].expiresAt then entries - {key} else entries
  }

  /** The background sweep drops what is past its expiry. */
  function Sweep<V>(entries: map<string, Entry<V>>, now: int): map<string, Entry<V>> {
    map k | k in entries && now <= entries[k].expiresAt :: entries[k]
  }

  lemma LatestSnoc<V>(history: seq<SetEvent<V>>, e: SetEvent<V>, key: string)
    ensures Latest(history + [e], key) == if e.key == key then Some(e) else Latest(history, key)
  {
    assert (history + [e])[..|history|] == history;
  }

  lemma SetAgrees<V>(entries: map<string, Entry<V>>, history: seq<SetEvent<V>>, now: int,
                     key: string, value: V, expiresAt: int)
    requires Agrees(entries, history, now)
    ensures Agrees(StoreEntry(entries, key, value, expiresAt), history + [SetEvent(key, value, expiresAt)], now)
  {
    var e := SetEvent(key, value, expiresAt);
    forall k, t | t >= now
      ensures Answer(StoreEntry(entries, key, value, expiresAt), k, t) == Expected(history + [e], k, t)
    {
      LatestSnoc(history, e, k);
      assert Answer(entries, k, t) == Expected(history, k, t);
    }
  }

  /** Delete-on-read and sweeps never change a later answer. */
  lemma CleanupAgrees<V>(entries: map<string, Entry<V>>, history: seq<SetEvent<V>>, then': int, now: int, key: string)
    requires Agrees(entries, history, then') && then' <= now
    ensures Agrees(DropIfExpired(entries, key, now), history, now)
    ensures Agrees(Sweep(entries, now), history, now)
  {
    forall k, t | t >= now
      ensures Answer(DropIfExpired(entries, key, now), k, t) == Expected(history, k, t)
      ensures Answer(Sweep(entries, now), k, t) == Expected(history, k, t)
    {
      assert Answer(entries, k, t) == Expected(history, k, t);
    }
  }

  // ---------------------------------------------------------------- the three caches

  /** Tokens: the caller gives the lifetime, of which five minutes are kept in reserve. `ends` remembers when
      the latest token of a key really ends. */
  class TokenCache {
    var cache: map<string, Entry<string>>
    ghost var history: seq<SetEvent<string>>
    ghost var ends: map<string, int>
    ghost var clock: int

    ghost predicate Valid()
      reads this
    {
      && Agrees(cache, history, clock)
      && forall key | Latest(history, key).Some? ::
           key in ends && Latest(history, key).value.expiresAt + TOKEN_MARGIN == ends[key]
    }

    constructor ()
      ensures Valid() && history == [] && ends == map[]
    {
      cache, history, ends, clock := map[], [], map[], 0;
    }

    method SetToken(key: string, token: string, expiresIn: int, now: int)
      requires Valid() && clock <= now
      modifies this
      ensures Valid() && clock == now
      ensures history == old(history) + [SetEvent(key, token, now + expiresIn - TOKEN_MARGIN)]
      ensures ends == old(ends)[key := now + expiresIn]
    {
      ghost var e := SetEvent(key, token, now + expiresIn - TOKEN_MARGIN);
      SetAgrees(cache, history, clock, key, token, e.expiresAt);
      forall k
        ensures Latest(history + [e], k) == if k == key then Some(e) else Latest(history, k)
      {
        LatestSnoc(history, e, k);
      }
      cache := cache[key := Entry(token, now + (expiresIn - 5 * MINUTE))];
      history, ends, clock := history + [e], ends[key := now + expiresIn], now;
    }

    /** A hit is the latest token of the key, with more than five minutes of its real lifetime left. */
    method GetToken(key: string, now: int) returns (token: Option<string>)
      requires Valid() && clock <= now
      modifies this
      ensures Valid() && clock == now && history == old(history) && ends == old(ends)
      ensures token == Expected(history, key, now)
      ensures token.Some? ==> key in ends && ends[key] - now > 5 * MINUTE
    {
      assert Answer(cache, key, now) == Expected(history, key, now);
      token := None;
      if key in cache {
        if now < cache[key].expiresAt {
          token := Some(cache[key].value);
        } else {
          cache := cache - {key};
        }
      }
      clock := now;
      assert cache == DropIfExpired(old(cache), key, now);
      CleanupAgrees(old(cache), history, old(clock), now, key);
    }
  }

  /** Networks: one lifetime for the whole cache. */
  class NetworkCache<V> {
    const cacheExpiry: int
    var networks: map<string, Entry<V>>
    ghost var history: seq<SetEvent<V>>
    ghost var clock: int

    ghost predicate Valid()
      reads this
    {
      Agrees(networks, history, clock)
    }

    constructor (expiry: int)
      ensures Valid() && history == [] && cacheExpiry == expiry
    {
      cacheExpiry := expiry;
      networks, history, clock := map[], [], 0;
    }

    method SetNetwork(key: string, data: V, now: int)
      requires Valid() && clock <= now
      modifies this
      ensures Valid() && clock == now && history == old(history) + [SetEvent(key, data, now + cacheExpiry)]
    {
      SetAgrees(networks, history, clock, key, data, now + cacheExpiry);
      networks := networks[key := Entry(data, now + cacheExpiry)];
      history := history + [SetEvent(key, data, now + cacheExpiry)];
      clock := now;
    }

    method GetNetwork(key: string, now: int) returns (data: Option<V>)
      requires Valid() && clock <= now
      modifies this
      ensures Valid() && clock == now && history == old(history)
      ensures data == Expected(history, key, now)
    {
      assert Answer(networks, key, now) == Expected(history, key, now);
      data := None;
      if key in networks {
        if now < networks[key].expiresAt {
          data := Some(networks[key].value);
        } else {
          networks := networks - {key};
        }
      }
      clock := now;
      assert networks == DropIfExpired(old(networks), key, now);
      CleanupAgrees(old(networks), history, old(clock), now, key);
    }
  }

  /** Memory: one lifetime, access statistics and a background sweep. */
  class SimpleMemoryCache<V> {
    const ttl: int
    var cache: map<string, Entry<V>>
    var accessCount: map<string, nat>
    ghost var history: seq<SetEvent<V>>
    ghost var clock: int

    ghost predicate Valid()
      reads this
    {
      cache.Keys <= accessCount.Keys && Agrees(cache, history, clock)
    }

    constructor (ttl: int)
      ensures Valid() && history == [] && this.ttl == ttl
    {
      this.ttl := ttl;
      cache, accessCount, history, clock := map[], map[], [], 0;
    }

    method Set(key: string, value: V, now: int)
      requires Valid() && clock <= now
      modifies this
      ensures Valid() && clock == now && history == old(history) + [SetEvent(key, value, now + ttl)]
      ensures accessCount == old(accessCount)[key := 0]
    {
      SetAgrees(cache, history, clock, key, value, now + ttl);
      cache := cache[key := Entry(value, now + ttl)];
      accessCount := accessCount[key := 0];
      history := history + [SetEvent(key, value, now + ttl)];
      clock := now;
    }

    method Get(key: string, now: int) returns (value: Option<V>)
      requires Valid() && clock <= now
      modifies this
      ensures Valid() && clock == now && history == old(history)
      ensures value == Expected(history, key, now)
      ensures value.Some? ==>
                key in old(accessCount) && accessCount == old(accessCount)[key := old(accessCount)[key] + 1]
      ensures value.None? ==> accessCount == old(accessCount)
    {
      assert Answer(cache, key, now) == Expected(history, key, now);
      value := None;
      if key in cache {
        if now < cache[key].expiresAt {
          accessCount := accessCount[key := accessCount[key] + 1];
          value := Some(cache[key].value);
        } else {
          cache := cache - {key};
        }
      }
      clock := now;
      assert cache == DropIfExpired(old(cache), key, now);
      CleanupAgrees(old(cache), history, old(clock), now, key);
    }

    /** One tick of the cleanup goroutine; the order of the range does not matter. */
    method Cleanup(now: int)
      requires Valid() && clock <= now
      modifies this
      ensures Valid() && clock == now && history == old(history)
      ensures cache == Sweep(old(cache), now)
    {
      var keys := cache.Keys;
      while keys != {}
        invariant keys <= old(cache).Keys
        invariant cache == map k | k in old(cache) && (k in keys || now <= old(cache)[k].expiresAt) :: old(cache)[k]
        invariant history == old(history) && clock == old(clock) && accessCount == old(accessCount)
        decreases |keys|
      {
        var k :| k in keys;
        keys := keys - {k};
        if now > cache[k].expiresAt {
          cache := cache - {k};
        }
      }
      clock := now;
      CleanupAgrees(old(cache), history, old(clock), now, "");
    }
  }

  // ---------------------------------------------------------------- whole runs

  /** LateDelete is the second half of a Get or of a sweep step that loaded an expired entry earlier: it
      deletes by key, whatever is stored by then. Get and Clean run without interruption. */
  datatype Op<V> =
    | Set(key: string, value: V, expiresAt: int, at: int)
    | Get(key: string, at: int)
    | Clean(at: int)
    | LateDelete(key: string, at: int)

  function EntriesAfter<V>(run: seq<Op<V>>): map<string, Entry<V>> {
    if run == [] then map[]
    else
      var before := EntriesAfter(run[..|run| - 1]);
      match run[|run| - 1]
      case Set(key, value, expiresAt, _) => StoreEntry(before, key, value, expiresAt)
      case Get(key, at) => DropIfExpired(before, key, at)
      case Clean(at) => Sweep(before, at)
      case LateDelete(key, _) => before - {key}
  }

  function HistoryOf<V>(run: seq<Op<V>>): seq<SetEvent<V>> {
    if run == [] then []
    else
      HistoryOf(run[..|run| - 1]) +
      match run[|run| - 1]
      case Set(key, value, expiresAt, _) => [SetEvent(key, value, expiresAt)]
      case _ => []
  }

  ghost predicate Nondecreasing<V>(run: seq<Op<V>>, now: int) {
    && (forall i, j | 0 <= i < j < |run| :: run[i].at <= run[j].at)
    && (forall i | 0 <= i < |run| :: run[i].at <= now)
  }

  /** A late delete meets nothing, or something that has itself expired. */
  predicate Harmless<V>(entries: map<string, Entry<V>>, key: string, at: int) {
    key in entries ==> at >= entries[key].expiresAt
  }

  ghost predicate AllHarmless<V>(run: seq<Op<V>>) {
    forall i | 0 <= i < |run| && run[i].LateDelete? :: Harmless(EntriesAfter(run[..i]), run[i].key, run[i].at)
  }

  /** The late delete keeps the agreement exactly when it is harmless; otherwise it loses a live entry. */
  lemma LateDeleteAgreesIffHarmless<V>(entries: map<string, Entry<V>>, history: seq<SetEvent<V>>,
                                       key: string, now: int)
    requires Agrees(entries, history, now)
    ensures Agrees(entries - {key}, history, now) <==> Harmless(entries, key, now)
  {
    var after := entries - {key};
    if Harmless(entries, key, now) {
      forall k, t | t >= now
        ensures Answer(after, k, t) == Expected(history, k, t)
      {
        assert Answer(entries, k, t) == Expected(history, k, t);
      }
    } else {
      assert Answer(after, key, now) == None && Answer(entries, key, now).Some?;
      assert Answer(entries, key, now) == Expected(history, key, now);
    }
  }

  /** For every run with nondecreasing time and no harmful late delete, of any length and any mix of Sets,
      Gets and sweeps: what a Get answers at the end is what the history of Sets alone says. */
  lemma {:induction false} RunsAnswerFromHistory<V>(run: seq<Op<V>>, now: int)
    requires Nondecreasing(run, now) && AllHarmless(run)
    ensures Agrees(EntriesAfter(run), HistoryOf(run), now)
    decreases |run|
  {
    if run != [] {
      var init, last := run[..|run| - 1], run[|run| - 1];
      forall i | 0 <= i < |init| && init[i].LateDelete?
        ensures Harmless(EntriesAfter(init[..i]), init[i].key, init[i].at)
      {
        assert init[..i] == run[..i];
      }
      RunsAnswerFromHistory(init, last.at);
      var entries, history := EntriesAfter(init), HistoryOf(init);
      match last {
        case Set(key, value, expiresAt, at) => SetAgrees(entries, history, at, key, value, expiresAt);
        case Get(key, at) => CleanupAgrees(entries, history, at, at, key);
        case Clean(at) => CleanupAgrees(entries, history, at, at, "");
        case LateDelete(key, at) => LateDeleteAgreesIffHarmless(entries, history, key, at);
      }
      if !last.Set? {
        assert HistoryOf(run) == history;
      }
    }
  }

  /** The latest Set of the key is followed by a late delete of the key that came before the Set's expiry. */
  ghost predicate LosesLatest<V>(run: seq<Op<V>>, key: string) {
    var e := Latest(HistoryOf(run), key);
    e.Some? && exists i | 0 <= i < |run| ::
      && run[i].LateDelete? && run[i].key == key && run[i].at < e.value.expiresAt
      && forall j | i < j < |run| :: !(run[j].Set? && run[j].key == key)
  }

  /** The stored entry of a key is that of its latest Set, or missing; missing while it is still live only after
      a late delete, and after one certainly missing. */
  ghost predicate KeyInv<V>(run: seq<Op<V>>, key: string, now: int) {
    var e, entries := Latest(HistoryOf(run), key), EntriesAfter(run);
    && (e.None? ==> key !in entries)
    && (e.Some? && key in entries ==> entries[key] == Entry(e.value.value, e.value.expiresAt))
    && (e.Some? && key !in entries && now < e.value.expiresAt ==> LosesLatest(run, key))
    && (LosesLatest(run, key) ==> key !in entries)
  }

  lemma LatestAfter<V>(run: seq<Op<V>>, op: Op<V>, key: string)
    ensures Latest(HistoryOf(run + [op]), key) ==
      if op.Set? && op.key == key then Some(SetEvent(key, op.value, op.expiresAt)) else Latest(HistoryOf(run), key)
  {
    assert (run + [op])[..|run|] == run;
    if op.Set? {
      LatestSnoc(HistoryOf(run), SetEvent(op.key, op.value, op.expiresAt), key);
    } else {
      assert HistoryOf(run + [op]) == HistoryOf(run);
    }
  }

  /** A Set of the key starts afresh, a late delete of it before the expiry loses it, all else changes nothing. */
  lemma LosesLatestAfter<V>(run: seq<Op<V>>, op: Op<V>, key: string)
    ensures LosesLatest(run + [op], key) <==>
      if op.Set? && op.key == key then false
      else LosesLatest(run, key)
           || (op.LateDelete? && op.key == key
               && Latest(HistoryOf(run), key).Some? && op.at < Latest(HistoryOf(run), key).value.expiresAt)
  {
    LatestAfter(run, op, key);
    var all, n := run + [op], |run|;
    assert all[n] == op;
    if LosesLatest(run, key) && !(op.Set? && op.key == key) {
      var i :| 0 <= i < n && run[i].LateDelete? && run[i].key == key
               && run[i].at < Latest(HistoryOf(run), key).value.expiresAt
               && forall j | i < j < n :: !(run[j].Set? && run[j].key == key);
      assert all[i] == run[i];
      assert LosesLatest(all, key);
    }
    if LosesLatest(all, key) {
      var i :| 0 <= i < n + 1 && all[i].LateDelete? && all[i].key == key
               && all[i].at < Latest(HistoryOf(all), key).value.expiresAt
               && forall j | i < j < n + 1 :: !(all[j].Set? && all[j].key == key);
      if i < n {
        assert run[i] == all[i];
        assert forall j | i < j < n :: run[j] == all[j];
      }
    }
  }

  lemma KeyInvStep<V>(run: seq<Op<V>>, op: Op<V>, key: string, now: int)
    requires KeyInv(run, key, op.at) && op.at <= now
    ensures KeyInv(run + [op], key, now)
  {
    assert (run + [op])[..|run|] == run;
    LatestAfter(run, op, key);
    LosesLatestAfter(run, op, key);
  }

  lemma {:induction false} EveryRunKeepsKeyInv<V>(run: seq<Op<V>>, key: string, now: int)
    requires Nondecreasing(run, now)
    ensures KeyInv(run, key, now)
    decreases |run|
  {
    if run != [] {
      var init, last := run[..|run| - 1], run[|run| - 1];
      assert run == init + [last];
      EveryRunKeepsKeyInv(init, key, last.at);
      KeyInvStep(init, last, key, now);
    }
  }

  /** For every run with nondecreasing time, late deletes included, and every key: from `now` on the answers
      are those of the history if and only if the latest Set has expired or was not lost to a late delete. */
  lemma KeyAnswersFromHistoryIff<V>(run: seq<Op<V>>, key: string, now: int)
    requires Nondecreasing(run, now)
    ensures (forall t | t >= now :: Answer(EntriesAfter(run), key, t) == Expected(HistoryOf(run), key, t)) <==>
      (LosesLatest(run, key) ==> Latest(HistoryOf(run), key).value.expiresAt <= now)
  {
    EveryRunKeepsKeyInv(run, key, now);
    var e := Latest(HistoryOf(run), key);
    if LosesLatest(run, key) && now < e.value.expiresAt {
      assert Answer(EntriesAfter(run), key, now) != Expected(HistoryOf(run), key, now);
    }
  }

  /** Under every interleaving, late deletes included, a hit is right as of its load: it is the latest Set of the
      key by then, and has not expired. A race can only turn a hit into a miss; a Set that comes between the load
      and the return is not seen. */
  lemma {:induction false} HitsAreAlwaysRight<V>(run: seq<Op<V>>, key: string, t: int)
    ensures Answer(EntriesAfter(run), key, t).Some? ==>
              Answer(EntriesAfter(run), key, t) == Expected(HistoryOf(run), key, t)
    decreases |run|
  {
    if run != [] {
      var init, last := run[..|run| - 1], run[|run| - 1];
      HitsAreAlwaysRight(init, key, t);
      if last.Set? {
        LatestSnoc(HistoryOf(init), SetEvent(last.key, last.value, last.expiresAt), key);
      } else {
        assert HistoryOf(run) == HistoryOf(init);
      }
    }
  }

  /** A run that loses a Set: an entry expires at 10, a new one is stored until 100, and then the delete of
      a Get that had loaded the old entry removes the new one; a Get at 20 misses. */
  lemma ConcurrentSetCanBeLost()
    ensures var run := [Set("k", 0, 10, 0), Set("k", 1, 100, 10), LateDelete("k", 10)];
      && Nondecreasing(run, 20)
      && Expected(HistoryOf(run), "k", 20) == Some(1)
      && Answer(EntriesAfter(run), "k", 20) == None
  {
    var run := [Set("k", 0, 10, 0), Set("k", 1, 100, 10), LateDelete("k", 10)];
    assert run[..2] == [run[0], run[1]] && run[..2][..1] == [run[0]] && run[..1][..0] == [];
    assert run[..2][..1] == run[..1];
    assert HistoryOf(run[..1]) == [SetEvent("k", 0, 10)];
    assert HistoryOf(run[..2]) == [SetEvent("k", 0, 10), SetEvent("k", 1, 100)];
    assert HistoryOf(run) == HistoryOf(run[..2]);
    assert Latest(HistoryOf(run), "k") == Some(SetEvent("k", 1, 100));
  }

  // ---------------------------------------------------------------- what is cleaned up

  /** After a sweep nothing past its expiry is stored, and the rest is as it was. */
  lemma SweepDropsExpired<V>(entries: map<string, Entry<V>>, now: int)
    ensures forall k | k in Sweep(entries, now) :: now <= Sweep(entries, now)[k].expiresAt
    ensures forall k | k in entries ::
              if now > entries[k].expiresAt then k !in Sweep(entries, now)
              else k in Sweep(entries, now) && Sweep(entries, now)[k] == entries[k]
    ensures Sweep(entries, now).Keys <= entries.Keys
  {
  }

  /** A Get at the expiry or later removes the entry of its key, an earlier one removes nothing; other keys stay. */
  lemma GetDropsExpired<V>(entries: map<string, Entry<V>>, key: string, now: int)
    ensures var after := DropIfExpired(entries, key, now);
      && (key in after <==> key in entries && now < entries[key].expiresAt)
      && (key in after ==> after[key] == entries[key])
      && (forall k | k != key ::
            (k in after <==> k in entries) && (k in entries ==> after[k] == entries[k]))
  {
  }

  /** From the expiry on, nothing is answered for a key until it is set again, and before it the value is. */
  lemma AnsweredUntilExpiry<V>(history: seq<SetEvent<V>>, key: string, value: V, expiresAt: int, t: int)
    ensures Expected(history + [SetEvent(key, value, expiresAt)], key, t) ==
      if t < expiresAt then Some(value) else None
  {
    LatestSnoc(history, SetEvent(key, value, expiresAt), key);
  }
}
