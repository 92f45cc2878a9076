/**
 * The routing decision of the master/slave database: the two override flags,
 * their setters, the backup lock, and the choice `__get('mysqli')` makes
 * between the master and a slave connection.
 */
module Routing {
  import opened Wrappers

  /** The statement kinds the base driver tags each query with; `Other` is any value the switch does not name. */
  datatype QueryType = Select | Insert | Update | Structure | Aux | Other

  /** `disable_slaves` and `disable_master`. */
  datatype Flags = Flags(slavesDisabled: bool, masterDisabled: bool) {
    /** The router never has both flags set. */
    predicate Ok() {
      !(slavesDisabled && masterDisabled)
    }
  }

  /** `disable_slaves($disable)`: disabling slaves first re-enables the master. */
  function SlavesSet(f: Flags, disable: bool): (r: Flags)
    ensures r.slavesDisabled == disable
    ensures disable ==> !r.masterDisabled
    ensures !disable ==> r.masterDisabled == f.masterDisabled
    ensures r.Ok()
  {
    Flags(disable, if disable then MasterSet(f, false).masterDisabled else f.masterDisabled)
  }

  /** `disable_master($disable)`: the master can be disabled only while slaves are enabled. */
  function MasterSet(f: Flags, disable: bool): (r: Flags)
    ensures r.slavesDisabled == f.slavesDisabled
    ensures disable && f.slavesDisabled ==> r == f
    ensures !(disable && f.slavesDisabled) ==> r.masterDisabled == disable
    ensures f.Ok() ==> r.Ok()
  {
    if !disable || !f.slavesDisabled then Flags(f.slavesDisabled, disable) else f
  }

  /**
   * The flags `use_master` leaves behind: `disable_slaves($saved)` applied to
   * whatever the callback left, `saved` being `disable_slaves` on entry.
   */
  function UseMasterExit(before: Flags, left: Flags): (r: Flags)
    ensures r.slavesDisabled == before.slavesDisabled
    ensures r.Ok()
    // a callback that leaves the flags as it found them: only disable_master is lost
    ensures left == SlavesSet(before, true) ==> r == Flags(before.slavesDisabled, false)
  {
    SlavesSet(left, before.slavesDisabled)
  }

  /**
   * The flags `use_slave` leaves behind: `disable_master($saved)` applied to
   * whatever the callback left, `saved` being `disable_master` on entry.
   */
  function UseSlaveExit(before: Flags, left: Flags): (r: Flags)
    ensures r.slavesDisabled == left.slavesDisabled
    ensures left.Ok() ==> r.Ok()
    // the saved value is restored unless the callback left slaves disabled
    ensures !left.slavesDisabled ==> r.masterDisabled == before.masterDisabled
    // a callback that leaves the flags as it found them: everything is restored
    ensures before.Ok() && left == MasterSet(before, true) ==> r == before
  {
    MasterSet(left, before.masterDisabled)
  }

  /** The classes whose presence on the call stack pins a session to the master (`locked_on_master_classes`). */
  const LockedOnMasterClasses: set<string> := {"backup", "db_record_lock_factory"}

  /**
   * `lock_on_master()`: while slaves are enabled, if the caller runs inside a
   * locked class, slaves are disabled. `callerTags` is the set of classes some
   * class on the call stack is a subclass of.
   */
  function LockedFlags(f: Flags, callerTags: set<string>, locked: set<string>): (r: Flags)
    ensures f.Ok() ==> r.Ok()
    ensures r.Ok() || r == f
    ensures f.slavesDisabled ==> r == f
    ensures callerTags * locked != {} ==> r.slavesDisabled && (f.slavesDisabled || !r.masterDisabled)
    ensures callerTags * locked == {} ==> r == f
  {
    if !f.slavesDisabled && callerTags * locked != {} then SlavesSet(f, true) else f
  }

  /** Where `__get('mysqli')` sends the access: the master, or `get_slave($fallbackToMaster)`. */
  datatype Target = ToMaster | ToSlave(fallbackToMaster: bool)

  predicate IsRead(qt: Option<QueryType>) {
    qt == Some(Select) || qt == Some(Aux)
  }

  /** The routing choice of `__get('mysqli')` from the transaction flag, the override flags and the pending query type. */
  function Route(transaction: bool, f: Flags, qt: Option<QueryType>): (t: Target)
    // an open transaction or disabled slaves pin the access to the master, unless the master is disabled
    ensures (transaction || f.slavesDisabled) && !f.masterDisabled ==> t == ToMaster
    // a disabled master sends everything to a slave, with no fallback to the master
    ensures t == ToSlave(false) <==> f.masterDisabled && !f.slavesDisabled
    // with no override in force, reads go to a slave and everything else to the master
    ensures !transaction && !f.slavesDisabled && !f.masterDisabled ==> (t == ToSlave(true) <==> IsRead(qt))
    ensures t == ToSlave(true) ==> IsRead(qt)
  {
    if (transaction || f.slavesDisabled) && !f.masterDisabled then ToMaster
    else if f.masterDisabled && !f.slavesDisabled then ToSlave(false)
    else
      match qt
      case Some(Select) => ToSlave(true)
      case Some(Aux) => ToSlave(true)
      case _ => ToMaster
  }

  /**
   * Every access consumes the pending query type, so a second access with no
   * new `query_start` in between goes to the master, unless the master is disabled.
   */
  lemma ConsumedQueryTypeGoesToMaster(transaction: bool, f: Flags)
    requires f.Ok() && !f.masterDisabled
    ensures Route(transaction, f, None) == ToMaster
  {
  }

  /** Once a locked class has been seen, every access goes to the master, whatever the query type or transaction state. */
  lemma LockedSessionRoutesToMaster(f: Flags, callerTags: set<string>, transaction: bool, qt: Option<QueryType>)
    requires f.Ok() && callerTags * LockedOnMasterClasses != {}
    ensures Route(transaction, LockedFlags(f, callerTags, LockedOnMasterClasses), qt) == ToMaster
  {
  }

  /** While the `use_master` callback runs (and changes no flag), every access goes to the master. */
  lemma UseMasterRoutesToMaster(f: Flags, transaction: bool, qt: Option<QueryType>)
    ensures Route(transaction, SlavesSet(f, true), qt) == ToMaster
  {
  }

  /** While the `use_slave` callback runs with slaves enabled, every access goes to a slave, with no fallback. */
  lemma UseSlaveRoutesToSlave(f: Flags, transaction: bool, qt: Option<QueryType>)
    requires !f.slavesDisabled
    ensures Route(transaction, MasterSet(f, true), qt) == ToSlave(false)
  {
  }
}
