/**
 * Slave server configurations, connection handles, the shared server status
 * cache, and the walk over a shuffled pool that `open_from_pool` performs.
 *
 * The status cache maps a server's cache key to a retry-after timestamp. An
 * entry counts only when its value is truthy (`if ($timestamp = $cache->get($key))`),
 * so an entry holding 0 is read as "no entry" and is never deleted.
 */
module Pool {
  import opened Wrappers

  /** The driver options of one server entry (`dboptions`). `dbpersist` holds `!empty(...)` of the option. */
  datatype DbOptions = DbOptions(dbsocket: string, dbport: string, dbpersist: bool)

  /** One entry of the slave pool (`dbslaves`). */
  datatype ServerConfig = ServerConfig(dbhost: string, dbuser: string, dbpass: string, dbname: string, dboptions: DbOptions)

  /** An open connection; only its identity matters to the router. */
  datatype Handle = Handle(id: nat)

  /** Cache key -> retry-after timestamp (seconds). */
  type StatusCache = map<int, int>

  /** The cache holds a truthy timestamp for `key`. */
  predicate Marked(cache: StatusCache, key: int) {
    key in cache && cache[key] != 0
  }

  /** The server with this key is marked dead until a moment after `now`. */
  predicate Dead(cache: StatusCache, key: int, now: int) {
    Marked(cache, key) && cache[key] > now
  }

  /** What a walk over the pool produced: the handle opened (if any), the cache after it, and the servers it tried to connect to. */
  datatype Outcome = Outcome(handle: Option<Handle>, cache: StatusCache, tried: seq<ServerConfig>)

  /** The cache once an expired mark for `key` is deleted (`$cache->delete($key)`). */
  function Cleared(cache: StatusCache, key: int): (c: StatusCache)
    ensures !Marked(c, key)
    ensures forall k :: k != key ==> (k in c <==> k in cache) && (k in c ==> c[k] == cache[k])
  {
    if Marked(cache, key) then cache - {key} else cache
  }

  /**
   * The walk of `open_from_pool` over the pool in the (shuffled) order `order`:
   * a server whose key is marked dead until after `now` is skipped; an expired
   * mark is deleted before the attempt; the first server that connects ends the
   * walk; a server that fails is marked dead until `now + interval`.
   * `keyOf` stands for `crc32(serialize($config))`; `connect` is the outcome of
   * opening a connection to a server.
   */
  function Walk(order: seq<ServerConfig>, cache: StatusCache, now: int, interval: int,
                keyOf: ServerConfig -> int, connect: ServerConfig -> Option<Handle>): (r: Outcome)
    ensures |r.tried| <= |order|
    decreases |order|
  {
    if order == [] then Outcome(None, cache, [])
    else
      var key := keyOf(order[0]);
      if Dead(cache, key, now) then
        Walk(order[1..], cache, now, interval, keyOf, connect)
      else
        var live := Cleared(cache, key);
        match connect(order[0])
        case Some(h) => Outcome(Some(h), live, [order[0]])
        case None =>
          var rest := Walk(order[1..], live[key := now + interval], now, interval, keyOf, connect);
          Outcome(rest.handle, rest.cache, [order[0]] + rest.tried)
  }

  /** One step of the walk past a server that is marked dead. */
  lemma WalkSkip(order: seq<ServerConfig>, cache: StatusCache, now: int, interval: int,
                 keyOf: ServerConfig -> int, connect: ServerConfig -> Option<Handle>)
    requires order != [] && Dead(cache, keyOf(order[0]), now)
    ensures Walk(order, cache, now, interval, keyOf, connect) == Walk(order[1..], cache, now, interval, keyOf, connect)
  {
  }

  /** A server that is not marked dead and connects ends the walk. */
  lemma WalkConnect(order: seq<ServerConfig>, cache: StatusCache, now: int, interval: int,
                    keyOf: ServerConfig -> int, connect: ServerConfig -> Option<Handle>)
    requires order != [] && !Dead(cache, keyOf(order[0]), now) && connect(order[0]).Some?
    ensures Walk(order, cache, now, interval, keyOf, connect) == Outcome(connect(order[0]), Cleared(cache, keyOf(order[0])), [order[0]])
  {
  }

  /** One step of the walk past a server that was tried and failed. */
  lemma WalkFail(order: seq<ServerConfig>, cache: StatusCache, now: int, interval: int,
                 keyOf: ServerConfig -> int, connect: ServerConfig -> Option<Handle>)
    requires order != [] && !Dead(cache, keyOf(order[0]), now) && connect(order[0]).None?
    ensures var key := keyOf(order[0]);
            var rest := Walk(order[1..], Cleared(cache, key)[key := now + interval], now, interval, keyOf, connect);
            Walk(order, cache, now, interval, keyOf, connect) == Outcome(rest.handle, rest.cache, [order[0]] + rest.tried)
  {
  }

  /**
   * What every walk produces: it tries only servers of the pool, no more times
   * than the pool has entries; only the last server tried can have connected,
   * and then its handle is the one returned and its key carries no mark; every
   * other server tried failed.
   */
  lemma {:induction false} WalkShape(order: seq<ServerConfig>, cache: StatusCache, now: int, interval: int,
                                     keyOf: ServerConfig -> int, connect: ServerConfig -> Option<Handle>)
    ensures var r := Walk(order, cache, now, interval, keyOf, connect);
            && |r.tried| <= |order|
            && (forall i :: 0 <= i < |r.tried| ==> r.tried[i] in order)
            && (r.handle.Some? ==> r.tried != [] && connect(r.tried[|r.tried| - 1]) == r.handle
                                   && !Marked(r.cache, keyOf(r.tried[|r.tried| - 1])))
            && (forall i :: 0 <= i < |r.tried| && (r.handle.None? || i < |r.tried| - 1) ==> connect(r.tried[i]).None?)
    decreases |order|
  {
    if order != [] {
      var key := keyOf(order[0]);
      var r := Walk(order, cache, now, interval, keyOf, connect);
      assert forall x :: x in order[1..] ==> x in order;
      if Dead(cache, key, now) {
        WalkSkip(order, cache, now, interval, keyOf, connect);
        WalkShape(order[1..], cache, now, interval, keyOf, connect);
      } else if connect(order[0]).Some? {
        WalkConnect(order, cache, now, interval, keyOf, connect);
      } else {
        var next := Cleared(cache, key)[key := now + interval];
        var rest := Walk(order[1..], next, now, interval, keyOf, connect);
        WalkFail(order, cache, now, interval, keyOf, connect);
        WalkShape(order[1..], next, now, interval, keyOf, connect);
        assert r.tried == [order[0]] + rest.tried;
        assert forall i :: 1 <= i < |r.tried| ==> r.tried[i] == rest.tried[i - 1];
        if r.handle.Some? {
          assert r.tried[|r.tried| - 1] == rest.tried[|rest.tried| - 1];
        }
      }
    }
  }

  /** No server marked dead (until after `now`) in the cache the walk starts from is ever tried. */
  lemma {:induction false} WalkSkipsDead(order: seq<ServerConfig>, cache: StatusCache, now: int, interval: int,
                                         keyOf: ServerConfig -> int, connect: ServerConfig -> Option<Handle>)
    ensures var r := Walk(order, cache, now, interval, keyOf, connect);
            forall i :: 0 <= i < |r.tried| ==> !Dead(cache, keyOf(r.tried[i]), now)
    decreases |order|
  {
    if order != [] {
      var key := keyOf(order[0]);
      if Dead(cache, key, now) {
        WalkSkip(order, cache, now, interval, keyOf, connect);
        WalkSkipsDead(order[1..], cache, now, interval, keyOf, connect);
      } else if connect(order[0]).None? {
        var next := Cleared(cache, key)[key := now + interval];
        WalkFail(order, cache, now, interval, keyOf, connect);
        WalkSkipsDead(order[1..], next, now, interval, keyOf, connect);
        var r := Walk(order, cache, now, interval, keyOf, connect);
        var rest := Walk(order[1..], next, now, interval, keyOf, connect);
        forall i | 0 <= i < |r.tried|
          ensures !Dead(cache, keyOf(r.tried[i]), now)
        {
          if i > 0 {
            assert r.tried[i] == rest.tried[i - 1];
            assert !Dead(next, keyOf(rest.tried[i - 1]), now);
          }
        }
      }
    }
  }

  /** A mark that is still in force when the walk starts is left exactly as it was. */
  lemma {:induction false} WalkKeepsDeadMarks(order: seq<ServerConfig>, cache: StatusCache, now: int, interval: int,
                                              keyOf: ServerConfig -> int, connect: ServerConfig -> Option<Handle>, k: int)
    requires Dead(cache, k, now)
    ensures var r := Walk(order, cache, now, interval, keyOf, connect);
            k in r.cache && r.cache[k] == cache[k]
    decreases |order|
  {
    if order != [] {
      var key := keyOf(order[0]);
      if Dead(cache, key, now) {
        WalkSkip(order, cache, now, interval, keyOf, connect);
        WalkKeepsDeadMarks(order[1..], cache, now, interval, keyOf, connect, k);
      } else if connect(order[0]).None? {
        var next := Cleared(cache, key)[key := now + interval];
        WalkFail(order, cache, now, interval, keyOf, connect);
        assert Dead(next, k, now);
        WalkKeepsDeadMarks(order[1..], next, now, interval, keyOf, connect, k);
      }
    }
  }

  /** Keys of servers the walk did not try keep their cache entry (or its absence). */
  lemma {:induction false} WalkFrame(order: seq<ServerConfig>, cache: StatusCache, now: int, interval: int,
                                     keyOf: ServerConfig -> int, connect: ServerConfig -> Option<Handle>, k: int)
    requires var r := Walk(order, cache, now, interval, keyOf, connect);
             forall i :: 0 <= i < |r.tried| ==> keyOf(r.tried[i]) != k
    ensures var r := Walk(order, cache, now, interval, keyOf, connect);
            (k in r.cache <==> k in cache) && (k in cache ==> r.cache[k] == cache[k])
    decreases |order|
  {
    if order != [] {
      var key := keyOf(order[0]);
      var r := Walk(order, cache, now, interval, keyOf, connect);
      if Dead(cache, key, now) {
        WalkSkip(order, cache, now, interval, keyOf, connect);
        WalkFrame(order[1..], cache, now, interval, keyOf, connect, k);
      } else if connect(order[0]).None? {
        var next := Cleared(cache, key)[key := now + interval];
        WalkFail(order, cache, now, interval, keyOf, connect);
        var rest := Walk(order[1..], next, now, interval, keyOf, connect);
        assert keyOf(r.tried[0]) != k;
        forall i | 0 <= i < |rest.tried| ensures keyOf(rest.tried[i]) != k {
          assert rest.tried[i] == r.tried[i + 1];
        }
        WalkFrame(order[1..], next, now, interval, keyOf, connect, k);
      } else {
        assert r.tried[0] == order[0];
      }
    }
  }

  /**
   * With a positive retry interval, every server that was tried and failed
   * ends up marked dead until exactly `now + interval`.
   */
  lemma {:induction false} WalkMarksFailures(order: seq<ServerConfig>, cache: StatusCache, now: int, interval: int,
                                             keyOf: ServerConfig -> int, connect: ServerConfig -> Option<Handle>)
    requires now >= 0 && interval > 0
    ensures var r := Walk(order, cache, now, interval, keyOf, connect);
            forall i :: 0 <= i < |r.tried| && connect(r.tried[i]).None? ==>
              keyOf(r.tried[i]) in r.cache && r.cache[keyOf(r.tried[i])] == now + interval
    decreases |order|
  {
    if order != [] {
      var key := keyOf(order[0]);
      if Dead(cache, key, now) {
        WalkSkip(order, cache, now, interval, keyOf, connect);
        WalkMarksFailures(order[1..], cache, now, interval, keyOf, connect);
      } else if connect(order[0]).None? {
        var next := Cleared(cache, key)[key := now + interval];
        WalkFail(order, cache, now, interval, keyOf, connect);
        var r := Walk(order, cache, now, interval, keyOf, connect);
        var rest := Walk(order[1..], next, now, interval, keyOf, connect);
        WalkMarksFailures(order[1..], next, now, interval, keyOf, connect);
        WalkKeepsDeadMarks(order[1..], next, now, interval, keyOf, connect, key);
        forall i | 0 <= i < |r.tried| && connect(r.tried[i]).None?
          ensures keyOf(r.tried[i]) in r.cache && r.cache[keyOf(r.tried[i])] == now + interval
        {
          if i > 0 {
            assert r.tried[i] == rest.tried[i - 1];
          }
        }
      }
    }
  }

  /** When every server of the pool is marked dead, nothing is tried, nothing is opened and the cache is untouched. */
  lemma {:induction false} WalkAllDead(order: seq<ServerConfig>, cache: StatusCache, now: int, interval: int,
                                       keyOf: ServerConfig -> int, connect: ServerConfig -> Option<Handle>)
    requires forall i :: 0 <= i < |order| ==> Dead(cache, keyOf(order[i]), now)
    ensures Walk(order, cache, now, interval, keyOf, connect) == Outcome(None, cache, [])
    decreases |order|
  {
    if order != [] {
      WalkSkip(order, cache, now, interval, keyOf, connect);
      WalkAllDead(order[1..], cache, now, interval, keyOf, connect);
    }
  }

  /**
   * A cache key names one server: two pool entries share a key only when they
   * are the same server (listed twice).
   */
  predicate KeysIdentify(order: seq<ServerConfig>, keyOf: ServerConfig -> int) {
    forall a, b :: 0 <= a < b < |order| && keyOf(order[a]) == keyOf(order[b]) ==> order[a] == order[b]
  }

  /** Every pool entry has its own cache key. */
  predicate DistinctKeys(order: seq<ServerConfig>, keyOf: ServerConfig -> int) {
    forall a, b :: 0 <= a < b < |order| ==> keyOf(order[a]) != keyOf(order[b])
  }

  lemma KeysIdentifyTail(order: seq<ServerConfig>, keyOf: ServerConfig -> int)
    requires order != [] && KeysIdentify(order, keyOf)
    ensures KeysIdentify(order[1..], keyOf)
  {
    var tail := order[1..];
    forall a, b | 0 <= a < b < |tail| && keyOf(tail[a]) == keyOf(tail[b]) ensures tail[a] == tail[b] {
      assert tail[a] == order[a + 1] && tail[b] == order[b + 1];
    }
  }

  lemma DistinctKeysTail(order: seq<ServerConfig>, keyOf: ServerConfig -> int)
    requires order != [] && DistinctKeys(order, keyOf)
    ensures DistinctKeys(order[1..], keyOf)
  {
    var tail := order[1..];
    forall a, b | 0 <= a < b < |tail| ensures keyOf(tail[a]) != keyOf(tail[b]) {
      assert tail[a] == order[a + 1] && tail[b] == order[b + 1];
    }
  }

  /**
   * A server that would connect and is not marked dead is never passed over
   * for nothing: provided a cache key names one server, the walk opens some
   * connection.
   */
  lemma {:induction false} WalkFindsLive(order: seq<ServerConfig>, cache: StatusCache, now: int, interval: int,
                                         keyOf: ServerConfig -> int, connect: ServerConfig -> Option<Handle>, j: nat)
    requires KeysIdentify(order, keyOf)
    requires j < |order| && connect(order[j]).Some? && !Dead(cache, keyOf(order[j]), now)
    ensures Walk(order, cache, now, interval, keyOf, connect).handle.Some?
    decreases |order|
  {
    var key := keyOf(order[0]);
    if j > 0 {
      var tail := order[1..];
      assert tail[j - 1] == order[j];
      KeysIdentifyTail(order, keyOf);
      if Dead(cache, key, now) {
        WalkSkip(order, cache, now, interval, keyOf, connect);
        WalkFindsLive(tail, cache, now, interval, keyOf, connect, j - 1);
      } else if connect(order[0]).None? {
        var next := Cleared(cache, key)[key := now + interval];
        WalkFail(order, cache, now, interval, keyOf, connect);
        assert order[j] != order[0];
        assert keyOf(order[j]) != key;
        assert !Dead(next, keyOf(tail[j - 1]), now);
        WalkFindsLive(tail, next, now, interval, keyOf, connect, j - 1);
      }
    }
  }

  /**
   * Only marked-dead servers are passed over: when every server before
   * position `i` is marked dead or fails to connect and `order[i]` is not
   * marked dead, `order[i]` is tried, and if it connects its handle is the one
   * returned (a cache key naming one server, as above).
   */
  lemma {:induction false} WalkTriesLiveInOrder(order: seq<ServerConfig>, cache: StatusCache, now: int, interval: int,
                                                keyOf: ServerConfig -> int, connect: ServerConfig -> Option<Handle>, i: nat)
    requires KeysIdentify(order, keyOf)
    requires i < |order| && !Dead(cache, keyOf(order[i]), now)
    requires forall k :: 0 <= k < i ==> Dead(cache, keyOf(order[k]), now) || connect(order[k]).None?
    ensures var r := Walk(order, cache, now, interval, keyOf, connect);
            order[i] in r.tried && (connect(order[i]).Some? ==> r.handle == connect(order[i]))
    decreases i
  {
    var key := keyOf(order[0]);
    var r := Walk(order, cache, now, interval, keyOf, connect);
    if i == 0 {
      if connect(order[0]).Some? {
        WalkConnect(order, cache, now, interval, keyOf, connect);
      } else {
        WalkFail(order, cache, now, interval, keyOf, connect);
        assert r.tried[0] == order[0];
      }
    } else {
      var tail := order[1..];
      assert tail[i - 1] == order[i];
      KeysIdentifyTail(order, keyOf);
      if Dead(cache, key, now) {
        WalkSkip(order, cache, now, interval, keyOf, connect);
        forall k | 0 <= k < i - 1 ensures Dead(cache, keyOf(tail[k]), now) || connect(tail[k]).None? {
          assert tail[k] == order[k + 1];
        }
        WalkTriesLiveInOrder(tail, cache, now, interval, keyOf, connect, i - 1);
      } else {
        var next := Cleared(cache, key)[key := now + interval];
        WalkFail(order, cache, now, interval, keyOf, connect);
        var rest := Walk(tail, next, now, interval, keyOf, connect);
        assert r.tried == [order[0]] + rest.tried;
        if keyOf(order[i]) == key {
          // the same server listed twice: it was tried, and failed, first
          assert order[i] == order[0] && r.tried[0] == order[0];
        } else {
          assert !Dead(next, keyOf(tail[i - 1]), now);
          forall k | 0 <= k < i - 1 ensures Dead(next, keyOf(tail[k]), now) || connect(tail[k]).None? {
            assert tail[k] == order[k + 1];
            if keyOf(order[k + 1]) == key {
              assert order[k + 1] == order[0];
            }
          }
          WalkTriesLiveInOrder(tail, next, now, interval, keyOf, connect, i - 1);
        }
      }
    }
  }

  /** The servers of `s` that are not marked dead in `cache`, in order. */
  function NotDead(s: seq<ServerConfig>, cache: StatusCache, now: int, keyOf: ServerConfig -> int): (live: seq<ServerConfig>)
    ensures |live| <= |s|
    ensures forall x :: x in live <==> x in s && !Dead(cache, keyOf(x), now)
  {
    if s == [] then []
    else if Dead(cache, keyOf(s[0]), now) then NotDead(s[1..], cache, now, keyOf)
    else [s[0]] + NotDead(s[1..], cache, now, keyOf)
  }

  /** Two caches that agree on whether each server of `s` is dead keep the same servers. */
  lemma {:induction false} NotDeadAgree(s: seq<ServerConfig>, c1: StatusCache, c2: StatusCache, now: int, keyOf: ServerConfig -> int)
    requires forall k :: 0 <= k < |s| ==> (Dead(c1, keyOf(s[k]), now) <==> Dead(c2, keyOf(s[k]), now))
    ensures NotDead(s, c1, now, keyOf) == NotDead(s, c2, now, keyOf)
  {
    if s != [] {
      assert forall k :: 0 <= k < |s| - 1 ==> s[1..][k] == s[k + 1];
      NotDeadAgree(s[1..], c1, c2, now, keyOf);
    }
  }

  /** `order[..n]` is the part of the order the walk `r` went through. */
  predicate WentThrough(r: Outcome, order: seq<ServerConfig>, cache: StatusCache, now: int,
                        keyOf: ServerConfig -> int, connect: ServerConfig -> Option<Handle>, n: nat)
  {
    && n <= |order|
    && r.tried == NotDead(order[..n], cache, now, keyOf)
    && (r.handle.Some? ==> n > 0 && r.handle == connect(order[n - 1]))
    && (r.handle.None? ==> n == |order|)
  }

  lemma NotDeadPrefix(order: seq<ServerConfig>, cache: StatusCache, now: int, keyOf: ServerConfig -> int, m: nat)
    requires m < |order|
    ensures NotDead(order[..m + 1], cache, now, keyOf)
            == (if Dead(cache, keyOf(order[0]), now) then [] else [order[0]]) + NotDead(order[1..][..m], cache, now, keyOf)
  {
    assert order[..m + 1][0] == order[0] && order[..m + 1][1..] == order[1..][..m];
  }

  /**
   * With one cache key per entry, the walk tries exactly the servers not
   * marked dead at the start, in shuffled order, up to and including the
   * winner, and nothing after it: `tried` is the live part of a prefix of the
   * order, that prefix ends with the winner when a handle is returned, and is
   * the whole order when none is.
   */
  lemma {:induction false} WalkTriesLivePrefix(order: seq<ServerConfig>, cache: StatusCache, now: int, interval: int,
                                               keyOf: ServerConfig -> int, connect: ServerConfig -> Option<Handle>)
    requires DistinctKeys(order, keyOf)
    ensures exists n: nat :: WentThrough(Walk(order, cache, now, interval, keyOf, connect), order, cache, now, keyOf, connect, n)
    decreases |order|
  {
    var r := Walk(order, cache, now, interval, keyOf, connect);
    if order == [] {
      assert order[..0] == [];
      assert WentThrough(r, order, cache, now, keyOf, connect, 0);
    } else {
      var key := keyOf(order[0]);
      var tail := order[1..];
      DistinctKeysTail(order, keyOf);
      if Dead(cache, key, now) {
        WalkSkip(order, cache, now, interval, keyOf, connect);
        WalkTriesLivePrefix(tail, cache, now, interval, keyOf, connect);
        var m: nat :| WentThrough(r, tail, cache, now, keyOf, connect, m);
        NotDeadPrefix(order, cache, now, keyOf, m);
        if r.handle.Some? {
          assert order[m] == tail[m - 1];
        }
        assert WentThrough(r, order, cache, now, keyOf, connect, m + 1);
      } else if connect(order[0]).Some? {
        WalkConnect(order, cache, now, interval, keyOf, connect);
        NotDeadPrefix(order, cache, now, keyOf, 0);
        assert tail[..0] == [];
        assert WentThrough(r, order, cache, now, keyOf, connect, 1);
      } else {
        var next := Cleared(cache, key)[key := now + interval];
        WalkFail(order, cache, now, interval, keyOf, connect);
        var rest := Walk(tail, next, now, interval, keyOf, connect);
        WalkTriesLivePrefix(tail, next, now, interval, keyOf, connect);
        var m: nat :| WentThrough(rest, tail, next, now, keyOf, connect, m);
        forall k | 0 <= k < |tail[..m]|
          ensures Dead(next, keyOf(tail[..m][k]), now) <==> Dead(cache, keyOf(tail[..m][k]), now)
        {
          assert tail[..m][k] == order[k + 1];
          assert keyOf(order[k + 1]) != key;
        }
        NotDeadAgree(tail[..m], next, cache, now, keyOf);
        NotDeadPrefix(order, cache, now, keyOf, m);
        assert r.tried == [order[0]] + rest.tried;
        if r.handle.Some? {
          assert order[m] == tail[m - 1];
        }
        assert WentThrough(r, order, cache, now, keyOf, connect, m + 1);
      }
    }
  }

  /**
   * Exactly one server of the pool that is not marked dead would connect
   * (possibly listed more than once; servers marked dead are never tried, so
   * whether they would connect does not matter): whatever the shuffle, the
   * walk returns that server's connection.
   */
  lemma WalkReturnsTheOnlyLive(order: seq<ServerConfig>, cache: StatusCache, now: int, interval: int,
                               keyOf: ServerConfig -> int, connect: ServerConfig -> Option<Handle>, j: nat)
    requires KeysIdentify(order, keyOf)
    requires j < |order| && connect(order[j]).Some? && !Dead(cache, keyOf(order[j]), now)
    requires forall i :: 0 <= i < |order| && order[i] != order[j] && !Dead(cache, keyOf(order[i]), now) ==>
               connect(order[i]).None?
    ensures Walk(order, cache, now, interval, keyOf, connect).handle == connect(order[j])
  {
    WalkFindsLive(order, cache, now, interval, keyOf, connect, j);
    WalkShape(order, cache, now, interval, keyOf, connect);
    WalkSkipsDead(order, cache, now, interval, keyOf, connect);
    var r := Walk(order, cache, now, interval, keyOf, connect);
    var last := r.tried[|r.tried| - 1];
    assert !Dead(cache, keyOf(last), now);
    assert last in order;
    var i :| 0 <= i < |order| && order[i] == last;
  }
}
