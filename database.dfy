/**
 * The master/slave database object `mysqli_ms_native_moodle_database`: it holds
 * one master connection and at most one slave connection, and for every
 * access to its `mysqli` property decides which of the two serves the query.
 */
module Database {
  import opened Wrappers
  import opened Pool
  import opened Routing
  import opened Php

  /** The retry interval for dead servers when `dbtimeout` is not configured. */
  const DefaultRetryInterval := 600

  /**
   * What the outside world answers during one access: the classes the caller
   * runs inside (for the backup lock), whether the cached slave answers `ping`,
   * the order `shuffle` gives the pool, the clock, and which servers accept a
   * connection (and with which handle).
   */
  datatype Env = Env(callerTags: set<string>, pingOk: bool, shuffled: seq<ServerConfig>, now: int,
                     connect: ServerConfig -> Option<Handle>)

  /** `reads_on_slave`, and the base driver's `reads`. */
  datatype Counters = Counters(readsOnSlave: nat, baseReads: int)

  /** `perf_get_reads()`: every read, served by a slave or by the master. */
  function TotalReads(c: Counters): int {
    c.readsOnSlave + c.baseReads
  }

  /**
   * The counters after `get_slave` returns: a read served by a slave is counted
   * on the slave and taken off the base driver's count while that is positive.
   */
  function CountRead(c: Counters, fromSlave: bool): (r: Counters)
    ensures c.baseReads >= 0 ==> r.baseReads >= 0
    ensures fromSlave ==> r.readsOnSlave == c.readsOnSlave + 1
    ensures !fromSlave ==> r == c
    // a slave read the base driver has already counted is not counted twice
    ensures fromSlave ==> TotalReads(r) == TotalReads(c) + (if c.baseReads > 0 then 0 else 1)
  {
    if fromSlave then Counters(c.readsOnSlave + 1, if c.baseReads > 0 then c.baseReads - 1 else c.baseReads) else c
  }

  /** What `get_slave` leaves behind: the cached slave, the status cache, the counters, and the handle it returns. */
  datatype SlaveStep = SlaveStep(slave: Option<Handle>, cache: StatusCache, counters: Counters, result: Option<Handle>)

  /**
   * `get_slave($fallbackToMaster)` on values: with slaves disabled or no slave
   * configured, the master (or nothing); otherwise the cached slave if it
   * answers `ping`, else a fresh one from the pool; if no slave is to be had,
   * the master (or nothing).
   */
  function SlaveAcquire(slavesDisabled: bool, configs: seq<ServerConfig>, cached: Option<Handle>, cache: StatusCache,
                        master: Option<Handle>, counters: Counters, fallback: bool, env: Env, interval: int,
                        keyOf: ServerConfig -> int): (st: SlaveStep)
    // slaves disabled or none configured: the master or nothing, and nothing else changes
    ensures slavesDisabled || configs == [] ==>
              st == SlaveStep(cached, cache, counters, if fallback then master else None)
    // a cached slave that answers ping is reused and the pool is not touched
    ensures !slavesDisabled && configs != [] && cached.Some? && env.pingOk ==>
              st.slave == cached && st.cache == cache && st.result == cached
    // otherwise the slave is replaced by what the walk over the shuffled pool opens
    ensures !slavesDisabled && configs != [] && !(cached.Some? && env.pingOk) ==>
              var w := Walk(env.shuffled, cache, env.now, interval, keyOf, env.connect);
              st.slave == w.handle && st.cache == w.cache
    // a slave is returned whenever one is available, and only then is the read counted on a slave
    ensures var served := !slavesDisabled && configs != [] && st.slave.Some?;
            && (served ==> st.result == st.slave)
            && (!served ==> st.result == (if fallback then master else None))
            && st.counters == CountRead(counters, served)
  {
    if slavesDisabled || configs == [] then
      SlaveStep(cached, cache, counters, if fallback then master else None)
    else
      var (slave, cache') :=
        if cached.Some? && env.pingOk then (cached, cache)
        else
          var w := Walk(env.shuffled, cache, env.now, interval, keyOf, env.connect);
          (w.handle, w.cache);
      if slave.Some? then SlaveStep(slave, cache', CountRead(counters, true), slave)
      else SlaveStep(slave, cache', counters, if fallback then master else None)
  }

  /**
   * When no cached slave can be reused and every server of the pool is marked
   * dead, `get_slave()` falls back to the master without trying any server.
   */
  lemma {:induction false} AllDeadFallsBackToMaster(configs: seq<ServerConfig>, cached: Option<Handle>, cache: StatusCache,
                                                    master: Option<Handle>, counters: Counters, env: Env, interval: int,
                                                    keyOf: ServerConfig -> int)
    requires configs != [] && !(cached.Some? && env.pingOk)
    requires forall i :: 0 <= i < |env.shuffled| ==> Dead(cache, keyOf(env.shuffled[i]), env.now)
    ensures SlaveAcquire(false, configs, cached, cache, master, counters, true, env, interval, keyOf)
            == SlaveStep(None, cache, counters, master)
  {
    WalkAllDead(env.shuffled, cache, env.now, interval, keyOf, env.connect);
  }

  class MasterSlaveDatabase {
    var master: Option<Handle>
    var slave: Option<Handle>
    const slaveConfigs: seq<ServerConfig>
    var statusCache: StatusCache
    var active: bool
    var transaction: bool
    var disableSlaves: bool
    var disableMaster: bool
    var readsOnSlave: nat
    const retryInterval: int
    var queryType: Option<QueryType>
    const lockedOnMasterClasses: set<string>
    // kept by the base driver
    var baseReads: int
    var writes: nat
    const transactionsSupported: bool
    // `crc32(serialize($config))`
    const keyOf: ServerConfig -> int
    // the connections closed so far
    ghost var closed: seq<Handle>

    ghost predicate Valid()
      reads this
    {
      CurrentFlags().Ok() && baseReads >= 0
    }

    function CurrentFlags(): Flags
      reads this
    {
      Flags(disableSlaves, disableMaster)
    }

    function Counts(): Counters
      reads this
    {
      Counters(readsOnSlave, baseReads)
    }

    /** The state `get_slave` left: it reflects the step `st` and returned `h`. */
    ghost predicate Took(st: SlaveStep, h: Option<Handle>)
      reads this
    {
      slave == st.slave && statusCache == st.cache && Counts() == st.counters && h == st.result
    }

    /**
     * `__construct`: the retry interval comes from `dbtimeout` (cast to an integer) when set, the
     * pool from `dbslaves` when it is an array; `sharedCache` is what the
     * shared status cache holds when the session starts.
     */
    constructor (dbtimeout: Option<string>, dbslaves: Option<seq<ServerConfig>>, sharedCache: StatusCache,
                 keyOf: ServerConfig -> int, transactionsSupported: bool)
      ensures Valid()
      ensures dbtimeout.None? ==> retryInterval == DefaultRetryInterval
      ensures dbtimeout.Some? ==> retryInterval == IntCast(dbtimeout.value)
      ensures slaveConfigs == dbslaves.GetOr([])
      ensures statusCache == sharedCache && this.keyOf == keyOf && this.transactionsSupported == transactionsSupported
      ensures lockedOnMasterClasses == LockedOnMasterClasses
      ensures master.None? && slave.None? && !active && !transaction && queryType.None?
      ensures CurrentFlags() == Flags(false, false)
      ensures readsOnSlave == 0 && baseReads == 0 && writes == 0 && closed == []
    {
      retryInterval := if dbtimeout.Some? then IntCast(dbtimeout.value) else DefaultRetryInterval;
      slaveConfigs := if dbslaves.Some? then dbslaves.value else [];
      statusCache := sharedCache;
      this.keyOf := keyOf;
      this.transactionsSupported := transactionsSupported;
      lockedOnMasterClasses := LockedOnMasterClasses;
      master, slave := None, None;
      active, transaction := false, false;
      disableSlaves, disableMaster := false, false;
      queryType := None;
      readsOnSlave, baseReads, writes := 0, 0, 0;
      closed := [];
    }

    /**
     * `connect`: the base driver's connection becomes the master and the
     * router becomes active; a failed connection is swallowed (after the
     * alert) and the router stays as it was. Always returns true.
     */
    method Connect(outcome: Option<Handle>) returns (ok: bool)
      modifies this`master, this`active
      ensures ok
      ensures outcome.Some? ==> master == outcome && active
      ensures outcome.None? ==> master == old(master) && active == old(active)
    {
      if outcome.Some? {
        master := outcome;
        active := true;
      }
      ok := true;
    }

    /** `disable_slaves($disable)`. */
    method DisableSlaves(disable: bool)
      requires Valid()
      modifies this`disableSlaves, this`disableMaster
      ensures Valid()
      ensures CurrentFlags() == SlavesSet(old(CurrentFlags()), disable)
    {
      if disable {
        DisableMaster(false);
      }
      disableSlaves := disable;
    }

    /** `disable_master($disable)`. */
    method DisableMaster(disable: bool)
      requires Valid()
      modifies this`disableMaster
      ensures Valid()
      ensures CurrentFlags() == MasterSet(old(CurrentFlags()), disable)
    {
      if !disable || !disableSlaves {
        disableMaster := disable;
      }
    }

    /** `lock_on_master()`, with the caller's classes given as tags. */
    method LockOnMaster(callerTags: set<string>)
      requires Valid()
      modifies this`disableSlaves, this`disableMaster
      ensures Valid()
      ensures CurrentFlags() == LockedFlags(old(CurrentFlags()), callerTags, lockedOnMasterClasses)
    {
      if !disableSlaves {
        if callerTags * lockedOnMasterClasses != {} {
          DisableSlaves(true);
        }
      }
    }

    /** `query_start`: remembers the type of the query about to run. */
    method QueryStart(qt: Option<QueryType>)
      modifies this`queryType
      ensures queryType == qt
    {
      queryType := qt;
    }

    /** `begin_transaction`: marks the transaction open when the driver supports transactions. */
    method BeginTransaction()
      modifies this`transaction
      ensures transaction == (transactionsSupported || old(transaction))
    {
      if transactionsSupported {
        transaction := true;
      }
    }

    /** `commit_transaction`: marks the transaction closed when the driver supports transactions. */
    method CommitTransaction()
      modifies this`transaction
      ensures transaction == (!transactionsSupported && old(transaction))
    {
      if transactionsSupported {
        transaction := false;
      }
    }

    /** `rollback_transaction`: marks the transaction closed when the driver supports transactions. */
    method RollbackTransaction()
      modifies this`transaction
      ensures transaction == (!transactionsSupported && old(transaction))
    {
      if transactionsSupported {
        transaction := false;
      }
    }

    /** `get_master()`. */
    method GetMaster() returns (h: Option<Handle>)
      ensures h == master
    {
      h := master;
    }

    /** `open_from_pool($pool)`: `shuffled` is the order `shuffle` gave the pool, `now` the clock. */
    method OpenFromPool(pool: seq<ServerConfig>, shuffled: seq<ServerConfig>, now: int,
                        connect: ServerConfig -> Option<Handle>) returns (h: Option<Handle>)
      requires multiset(shuffled) == multiset(pool)
      modifies this`statusCache
      ensures h == Walk(shuffled, old(statusCache), now, retryInterval, keyOf, connect).handle
      ensures statusCache == Walk(shuffled, old(statusCache), now, retryInterval, keyOf, connect).cache
    {
      var cache := statusCache;
      ghost var w := Walk(shuffled, cache, now, retryInterval, keyOf, connect);
      var i := 0;
      while i < |shuffled|
        invariant 0 <= i <= |shuffled|
        invariant Walk(shuffled[i..], cache, now, retryInterval, keyOf, connect).handle == w.handle
        invariant Walk(shuffled[i..], cache, now, retryInterval, keyOf, connect).cache == w.cache
      {
        var config := shuffled[i];
        var key := keyOf(config);
        ghost var rest := shuffled[i..];
        assert rest[0] == config && rest[1..] == shuffled[i + 1..];
        if key in cache && cache[key] != 0 {
          if cache[key] > now {
            // still marked dead: skip it
            WalkSkip(rest, cache, now, retryInterval, keyOf, connect);
            i := i + 1;
            continue;
          }
        }
        ghost var before := cache;
        if key in cache && cache[key] != 0 {
          cache := cache - {key};
        }
        assert cache == Cleared(before, key);
        var attempt := connect(config);
        if attempt.Some? {
          WalkConnect(rest, before, now, retryInterval, keyOf, connect);
          statusCache := cache;
          return attempt;
        }
        // record the failure, so the server is skipped until the interval has passed
        WalkFail(rest, before, now, retryInterval, keyOf, connect);
        cache := cache[key := now + retryInterval];
        i := i + 1;
      }
      statusCache := cache;
      h := None;
    }

    /** `get_slave($fallbackToMaster)`. */
    method GetSlave(fallbackToMaster: bool, env: Env) returns (h: Option<Handle>)
      requires Valid()
      requires multiset(env.shuffled) == multiset(slaveConfigs)
      modifies this`slave, this`statusCache, this`readsOnSlave, this`baseReads
      ensures Valid()
      ensures Took(SlaveAcquire(disableSlaves, slaveConfigs, old(slave), old(statusCache), master, old(Counts()),
                                fallbackToMaster, env, retryInterval, keyOf), h)
    {
      if disableSlaves || |slaveConfigs| == 0 {
        h := if fallbackToMaster then master else None;
        return;
      }
      if slave.None? || !env.pingOk {
        slave := OpenFromPool(slaveConfigs, env.shuffled, env.now, env.connect);
      }
      if slave.Some? {
        readsOnSlave := readsOnSlave + 1;
        if baseReads > 0 {
          baseReads := baseReads - 1;
        }
        h := slave;
      } else {
        h := if fallbackToMaster then master else None;
      }
    }

    /**
     * `__get($name)`: for the `mysqli` property of an active router, consumes
     * the pending query type, applies the backup lock, and returns the
     * connection the routing decision picks; any other property (or an
     * inactive router) gives nothing.
     */
    method GetProperty(name: string, env: Env) returns (h: Option<Handle>)
      requires Valid()
      requires multiset(env.shuffled) == multiset(slaveConfigs)
      modifies this`queryType, this`disableSlaves, this`disableMaster, this`slave, this`statusCache,
               this`readsOnSlave, this`baseReads
      ensures Valid()
      ensures !(old(active) && name == "mysqli") ==> h.None? && unchanged(this)
      ensures old(active) && name == "mysqli" ==>
                && queryType.None?
                && CurrentFlags() == LockedFlags(old(CurrentFlags()), env.callerTags, lockedOnMasterClasses)
                && match Route(old(transaction), CurrentFlags(), old(queryType))
                   case ToMaster =>
                     h == master && slave == old(slave) && statusCache == old(statusCache) && Counts() == old(Counts())
                   case ToSlave(fallback) =>
                     Took(SlaveAcquire(disableSlaves, slaveConfigs, old(slave), old(statusCache), master, old(Counts()),
                                       fallback, env, retryInterval, keyOf), h)
    {
      if active && name == "mysqli" {
        var qt := queryType;
        queryType := None;
        LockOnMaster(env.callerTags);
        if (transaction || disableSlaves) && !disableMaster {
          h := GetMaster();
        } else if disableMaster && !disableSlaves {
          h := GetSlave(false, env);
        } else {
          match qt {
            case Some(Select) => h := GetSlave(true, env);
            case Some(Aux) => h := GetSlave(true, env);
            case _ => h := GetMaster();
          }
        }
      } else {
        h := None;
      }
    }

    /**
     * `use_master($callback)`: runs the callback with slaves disabled, then
     * puts `disable_slaves` back. The callback is given by its effect on the
     * two flags and its result.
     */
    method UseMaster<R>(callback: Flags -> (Flags, R)) returns (result: R)
      requires Valid()
      requires forall f: Flags :: f.Ok() ==> callback(f).0.Ok()
      modifies this`disableSlaves, this`disableMaster
      ensures Valid()
      ensures var during := SlavesSet(old(CurrentFlags()), true);
              result == callback(during).1 && CurrentFlags() == UseMasterExit(old(CurrentFlags()), callback(during).0)
    {
      var saved := disableSlaves;
      DisableSlaves(true);
      var out := callback(CurrentFlags());
      disableSlaves, disableMaster := out.0.slavesDisabled, out.0.masterDisabled;
      DisableSlaves(saved);
      result := out.1;
    }

    /**
     * `use_slave($callback)`: runs the callback with the master disabled (when
     * slaves are enabled), then puts `disable_master` back.
     */
    method UseSlave<R>(callback: Flags -> (Flags, R)) returns (result: R)
      requires Valid()
      requires forall f: Flags :: f.Ok() ==> callback(f).0.Ok()
      modifies this`disableSlaves, this`disableMaster
      ensures Valid()
      ensures var during := MasterSet(old(CurrentFlags()), true);
              result == callback(during).1 && CurrentFlags() == UseSlaveExit(old(CurrentFlags()), callback(during).0)
    {
      var saved := disableMaster;
      DisableMaster(true);
      var out := callback(CurrentFlags());
      disableSlaves, disableMaster := out.0.slavesDisabled, out.0.masterDisabled;
      DisableMaster(saved);
      result := out.1;
    }

    /** `dispose()`: closes and forgets both connections; a second call closes nothing. */
    method Dispose()
      modifies this`master, this`slave, this`closed
      ensures master.None? && slave.None?
      ensures closed == old(closed) + (if old(master).Some? then [old(master).value] else [])
                                    + (if old(slave).Some? then [old(slave).value] else [])
    {
      if master.Some? {
        closed := closed + [master.value];
        master := None;
      }
      if slave.Some? {
        closed := closed + [slave.value];
        slave := None;
      }
    }

    /** `perf_get_reads($slaveOnly)`. */
    function PerfGetReads(slaveOnly: bool): (n: int)
      reads this
      ensures slaveOnly ==> n == readsOnSlave
      ensures !slaveOnly ==> n == TotalReads(Counts())
      ensures Valid() ==> n >= readsOnSlave
    {
      if slaveOnly then readsOnSlave else readsOnSlave + baseReads
    }

    /** `perf_get_queries()`: writes plus all reads, including those served by slaves. */
    function PerfGetQueries(): (n: int)
      reads this
      ensures n == writes + TotalReads(Counts())
      ensures Valid() ==> n >= writes + readsOnSlave
    {
      writes + PerfGetReads(false)
    }
  }
}
