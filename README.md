# Moodle master/slave database router, and course availability conditions

This project models two parts of a Moodle installation in Dafny and proves
properties of the models.

The main part is the MySQL driver `mysqli_ms_native_moodle_database`. It splits
reads from writes between one master connection and a pool of slave servers:

- every access to its `mysqli` property picks a connection from:
  - the pending query type;
  - the open transaction;
  - the two override flags `disable_slaves` and `disable_master`;
  - the backup lock (`lock_on_master`);
- `get_slave` reuses a live cached slave, or opens one from the shuffled pool.
  A shared status cache keeps dead servers out for a retry interval;
- `use_master` / `use_slave` run a callback with one side forced;
- the performance counters count reads served by slaves.

The model also covers:

- the connection parameters `make_mysqli` derives from a pool entry (socket, port, persistent host, strict-mode version check);
- the rate limit on the connection-failure e-mail.

The second part is the course availability conditions of `lib/courseconditionlib.php`:

- rebuilding a course's condition rows from the edit form;
- deciding whether the current user meets them;
- trimming the stored grade bounds for display.

Files:

- `wrappers.dfy`: `Option`.
- `php.dfy`: PHP's `!empty()` on strings, the `(int)` cast of a string, and the decimal text of an integer.
- `pool.dfy`:
  - server entries, handles, and the status cache;
  - `Walk`, the value-level description of the loop in `open_from_pool`, with its lemmas.
- `routing.dfy`: the override flags and their setters, the backup lock, and the routing decision of `__get`.
- `connect_options.dfy`: socket, port and host resolution, and `version_compare` against 5.0.2.
- `alerts.dfy`: the e-mail rate limit and its stamp file.
- `database.dfy`:
  - the class `MasterSlaveDatabase`, whose methods update its fields as the PHP object does;
  - `SlaveAcquire`, the value-level description of `get_slave`.
- `course_condition.dfy`: `coursecompletion_updatecourse`, `coursecompletion_checkcompletion`, and the display trimming.

What the outside world answers is passed in as parameters (the `Env` datatype of `database.dfy`):

- the classes on the call stack, as tags;
- whether the cached slave answers `ping`;
- the order `shuffle` gave the pool;
- the clock;
- which servers accept a connection.

The cache key `crc32(serialize($config))` is an arbitrary function `keyOf`.

Points where the code behaves differently from what its names suggest (the model follows the code):

- A transaction with `disable_master` set goes to a slave with no fallback. The transaction only pins the master while the master is enabled.
- A failed master connection does not abort the session. `connect` returns true and leaves the router inactive; it reports the failure by e-mail only when `Alerts.AlertDue` allows it (alerts enabled, and none sent in the last 600 s).
- The backup lock is only `disable_slaves(true)`. There is no separate one-way flag, so a later `disable_slaves(false)` (for instance the restore at the end of `use_master`) lifts it.
- `use_master` / `use_slave` restore the saved flag only on normal return; there is no `finally`. `use_master` also leaves `disable_master` cleared.
- Each slave read increments `reads_on_slave` and decrements the base driver's `reads` only while that is positive. So a slave read the base driver had already counted in `reads` adds nothing to `perf_get_reads()`, and one it had not counted (`reads` was 0) adds one (`CountRead`).
- A status-cache entry holding 0 reads as "no entry" (`if ($timestamp = $cache->get($key))`). Such an entry is never deleted.

## Model

| member | source | states |
|---|---|---|
| Php.IntCast | lib/dml/mysqli_ms_native_moodle_database.php:301 | PHP's `(int)` of a string without exponent notation (white space, sign, longest digit run) is non-negative for text that is empty or starts with a digit |
| Php.IntCastOfDecimal | lib/dml/mysqli_ms_native_moodle_database.php:299-307 | the `(int)` of the decimal text `fwrite` writes for `n` is `n` again |
| Php.DecimalStringLength | lib/dml/mysqli_ms_native_moodle_database.php:299 | a number below 10^k prints in at most k characters, so a 24-byte read gets all of a stamp below 10^24 |
| Php.DecimalStringTruthy | lib/dml/mysqli_ms_native_moodle_database.php:163-171 | the decimal text of a positive number is not `empty()` |
| Pool.Cleared | lib/dml/mysqli_ms_native_moodle_database.php:437-443 | deleting an expired mark leaves the key unmarked and every other entry as it was |
| Pool.Walk | lib/dml/mysqli_ms_native_moodle_database.php:430-455 | the walk never makes more attempts than the pool has entries; which servers it tries, in what order, is stated by the lemmas below |
| Pool.WalkShape | lib/dml/mysqli_ms_native_moodle_database.php:430-455 | the walk tries only servers of the pool, and no more attempts than the pool has entries; only the last server tried can have connected, and that handle is returned; every other server tried failed; the winner carries no mark afterwards |
| Pool.WalkSkipsDead | lib/dml/mysqli_ms_native_moodle_database.php:437-441 | no server marked dead until after now is ever tried |
| Pool.WalkKeepsDeadMarks | lib/dml/mysqli_ms_native_moodle_database.php:437-441 | a mark still in force at the start survives the walk unchanged |
| Pool.WalkFrame | lib/dml/mysqli_ms_native_moodle_database.php:433-453 | the cache entry of a key that no tried server has is left unchanged |
| Pool.WalkMarksFailures | lib/dml/mysqli_ms_native_moodle_database.php:448-452 | every server that failed ends marked dead until now + retry interval, for a non-negative clock and a positive interval |
| Pool.WalkAllDead | lib/dml/mysqli_ms_native_moodle_database.php:433-455 | when every entry is marked dead, nothing is tried, the cache is unchanged and null is returned |
| Pool.WalkFindsLive | lib/dml/mysqli_ms_native_moodle_database.php:433-455 | when a cache key names one server (a server may be listed twice), if some server that is not marked dead connects, the walk returns a handle, so null means every live server failed |
| Pool.WalkTriesLiveInOrder | lib/dml/mysqli_ms_native_moodle_database.php:433-447 | when a cache key names one server, only marked-dead servers are passed over: a server not marked dead, after only dead or failing ones, is tried, and if it connects its handle is returned (the first live server that connects wins) |
| Pool.WalkTriesLivePrefix | lib/dml/mysqli_ms_native_moodle_database.php:430-455 | with one cache key per entry, the servers tried are exactly those not marked dead at the start, in shuffled order, from the first entry up to the winner and nothing after it (the whole pool when nothing connects); the handle is the last entry's of that prefix |
| Pool.WalkReturnsTheOnlyLive | lib/dml/mysqli_ms_native_moodle_database.php:446-447 | when every unmarked server that would connect is the same server (possibly listed twice), its handle is the one returned; servers marked dead may connect or not |
| Routing.SlavesSet | lib/dml/mysqli_ms_native_moodle_database.php:362-368 | `disable_slaves(d)` sets the flag to d; disabling slaves first enables the master; the flags never end both set |
| Routing.MasterSet | lib/dml/mysqli_ms_native_moodle_database.php:375-380 | `disable_master(true)` does nothing while slaves are disabled, otherwise sets the flag; it keeps "never both set" |
| Routing.LockedFlags | lib/dml/mysqli_ms_native_moodle_database.php:205-227 | a caller inside a locked class disables slaves (and so enables the master); otherwise, or when slaves are already disabled, nothing changes |
| Routing.Route | lib/dml/mysqli_ms_native_moodle_database.php:242-260 | transaction or disabled slaves with an enabled master go to the master; a disabled master with enabled slaves goes to a slave with no fallback (and only then); with no override, exactly SELECT and AUX go to a slave with fallback |
| Routing.ConsumedQueryTypeGoesToMaster | lib/dml/mysqli_ms_native_moodle_database.php:237-238 | once the pending query type is consumed, the next access goes to the master unless the master is disabled |
| Routing.LockedSessionRoutesToMaster | lib/dml/mysqli_ms_native_moodle_database.php:240-243 | once a locked class is seen, every access goes to the master whatever the query type |
| Routing.UseMasterExit | lib/dml/mysqli_ms_native_moodle_database.php:473-481 | after `use_master` the saved `disable_slaves` is back, the flags are consistent, and a callback that changed nothing leaves `disable_master` cleared |
| Routing.UseSlaveExit | lib/dml/mysqli_ms_native_moodle_database.php:498-506 | after `use_slave` the saved `disable_master` is back unless the callback left slaves disabled; a callback that changed nothing leaves the flags exactly as before |
| Routing.UseMasterRoutesToMaster | lib/dml/mysqli_ms_native_moodle_database.php:475-477 | inside `use_master` every access goes to the master |
| Routing.UseSlaveRoutesToSlave | lib/dml/mysqli_ms_native_moodle_database.php:500-502 | inside `use_slave` with slaves enabled every access goes to a slave with no fallback |
| ConnectOptions.Socket | lib/dml/mysqli_ms_native_moodle_database.php:155-161 | the entry's socket is used exactly when it holds '/' or '\', else the default socket |
| ConnectOptions.Port | lib/dml/mysqli_ms_native_moodle_database.php:163-172 | the port is never 0: the cast entry port when the entry is non-empty and casts to non-zero; the cast default port when the entry is empty and that casts to non-zero; 3306 otherwise (also for a non-empty entry that casts to 0) |
| ConnectOptions.PortOfDecimal | lib/dml/mysqli_ms_native_moodle_database.php:166 | a positive port written in decimal in the entry is the port used |
| ConnectOptions.Host | lib/dml/mysqli_ms_native_moodle_database.php:174-176 | a non-empty host of a persistent entry gets the `p:` prefix, any other host is unchanged |
| ConnectOptions.CompareVersions | lib/dml/mysqli_ms_native_moodle_database.php:193 | the comparison answers -1, 0 or 1, and 0 exactly for equal versions; when the first parts differ, 1 exactly when `a`'s is larger; a proper prefix is the older version |
| ConnectOptions.CompareVersionsFirstDifference | lib/dml/mysqli_ms_native_moodle_database.php:193 | at the first part where the versions differ, the one with the larger part is the newer |
| ConnectOptions.CompareVersionsFlips | lib/dml/mysqli_ms_native_moodle_database.php:193 | swapping the operands negates the comparison |
| ConnectOptions.AtLeastTransitive | lib/dml/mysqli_ms_native_moodle_database.php:193 | "at least as new as" is transitive |
| ConnectOptions.WantsStrictMode | lib/dml/mysqli_ms_native_moodle_database.php:193-196 | strict mode is switched on exactly for versions 5.x with x > 0, 5.0.y with y >= 2, and any major version above 5 |
| ConnectOptions.AtLeastStrictModeVersion | lib/dml/mysqli_ms_native_moodle_database.php:193 | `version_compare(v, '5.0.2', '>=')` holds exactly for the versions spelled out part by part |
| ConnectOptions.StrictModeExamples | lib/dml/mysqli_ms_native_moodle_database.php:193-196 | 5.0.2, 5.7.21 and 8.0 get strict mode; 5.0.1, 4.1.20 and 5.0 do not |
| ConnectOptions.StrictModeUpward | lib/dml/mysqli_ms_native_moodle_database.php:193-196 | a server newer than one that gets strict mode gets it too |
| Alerts.AlertDue | lib/dml/mysqli_ms_native_moodle_database.php:291-316 | an alert goes out only when alerts are enabled, and always when they are and no stamp file exists |
| Alerts.StampAfter | lib/dml/mysqli_ms_native_moodle_database.php:301-316 | sending an alert rewrites the stamp with the current time; otherwise the stamp is unchanged |
| Alerts.StampReadsBack | lib/dml/mysqli_ms_native_moodle_database.php:298-307 | a stamp written at t reads back (24 bytes, `(int)`) as t |
| Alerts.AlertSuppressedInWindow | lib/dml/mysqli_ms_native_moodle_database.php:301 | after an alert at t1, no failure up to t1 + 600 sends another |
| Alerts.AlertResumesAfterWindow | lib/dml/mysqli_ms_native_moodle_database.php:301-305 | after an alert at t1, a failure later than t1 + 600 sends again |
| Database.CountRead | lib/dml/mysqli_ms_native_moodle_database.php:410-413 | a slave read adds one to `reads_on_slave` and takes one off `reads` only while positive, so `reads` never goes negative and the total grows by 0 or 1 |
| Database.SlaveAcquire | lib/dml/mysqli_ms_native_moodle_database.php:399-419 | disabled slaves or an empty pool give the master (or null) with nothing changed; a cached slave that answers ping is reused without touching the pool; otherwise the slave becomes the walk's result; a slave is returned exactly when one is held, and only then is the read counted |
| Database.AllDeadFallsBackToMaster | lib/dml/mysqli_ms_native_moodle_database.php:405-418 | with every pool server marked dead and no usable cached slave, `get_slave()` returns the master, drops a stale cached slave and changes nothing else |
| Database.MasterSlaveDatabase.constructor | lib/dml/mysqli_ms_native_moodle_database.php:81-92 | the retry interval is the cast `dbtimeout` or 600; the pool is `dbslaves` or empty; both flags clear, no connections, counters zero |
| Database.MasterSlaveDatabase.Connect | lib/dml/mysqli_ms_native_moodle_database.php:97-109 | always returns true; a successful connection becomes the master and activates the router; a failure leaves both unchanged |
| Database.MasterSlaveDatabase.DisableSlaves | lib/dml/mysqli_ms_native_moodle_database.php:362-368 | the new flags are `SlavesSet` of the old ones, and the object stays valid (never both flags set) |
| Database.MasterSlaveDatabase.DisableMaster | lib/dml/mysqli_ms_native_moodle_database.php:375-380 | the new flags are `MasterSet` of the old ones, and the object stays valid |
| Database.MasterSlaveDatabase.LockOnMaster | lib/dml/mysqli_ms_native_moodle_database.php:205-227 | the new flags are `LockedFlags` of the old ones and the caller's classes, and the object stays valid |
| Database.MasterSlaveDatabase.QueryStart | lib/dml/mysqli_ms_native_moodle_database.php:270-273 | the query type becomes the pending one |
| Database.MasterSlaveDatabase.BeginTransaction | lib/dml/mysqli_ms_native_moodle_database.php:323-330 | the transaction is marked open when transactions are supported, otherwise unchanged |
| Database.MasterSlaveDatabase.CommitTransaction | lib/dml/mysqli_ms_native_moodle_database.php:335-342 | the transaction is marked closed when transactions are supported, otherwise unchanged |
| Database.MasterSlaveDatabase.RollbackTransaction | lib/dml/mysqli_ms_native_moodle_database.php:347-354 | the transaction is marked closed when transactions are supported, otherwise unchanged |
| Database.MasterSlaveDatabase.GetMaster | lib/dml/mysqli_ms_native_moodle_database.php:386-389 | returns the master connection |
| Database.MasterSlaveDatabase.OpenFromPool | lib/dml/mysqli_ms_native_moodle_database.php:428-456 | the handle returned and the status cache left are those of `Walk` over the shuffled pool |
| Database.MasterSlaveDatabase.GetSlave | lib/dml/mysqli_ms_native_moodle_database.php:399-419 | the slave, status cache, counters and result are those `SlaveAcquire` describes, and the flags stay consistent |
| Database.MasterSlaveDatabase.GetProperty | lib/dml/mysqli_ms_native_moodle_database.php:234-265 | for `mysqli` on an active router: the query type is consumed, the backup lock applied, and the connection is the master or `get_slave` with the fallback `Route` picks; anything else returns null and changes nothing |
| Database.MasterSlaveDatabase.UseMaster | lib/dml/mysqli_ms_native_moodle_database.php:473-481 | returns the callback's result, computed with slaves disabled, and leaves the flags `UseMasterExit` describes |
| Database.MasterSlaveDatabase.UseSlave | lib/dml/mysqli_ms_native_moodle_database.php:498-506 | returns the callback's result, computed with the flags `MasterSet(old, true)` gives (the master stays enabled when slaves were disabled), and leaves the flags `UseSlaveExit` describes |
| Database.MasterSlaveDatabase.Dispose | lib/dml/mysqli_ms_native_moodle_database.php:511-523 | both connections are closed (each once) and cleared, so a second call closes nothing |
| Database.MasterSlaveDatabase.PerfGetReads | lib/dml/mysqli_ms_native_moodle_database.php:528-531 | slave reads only, or slave reads plus the base driver's reads, never fewer than the slave reads |
| Database.MasterSlaveDatabase.PerfGetQueries | lib/dml/mysqli_ms_native_moodle_database.php:536-539 | writes plus all reads |
| CourseCondition.WithoutCourse | lib/courseconditionlib.php:49 | the table keeps exactly the rows of other courses |
| CourseCondition.RowsOf | lib/courseconditionlib.php:105 | the rows read are exactly those of the course |
| CourseCondition.Linked | lib/courseconditionlib.php:51-63 | every inserted row belongs to the course and names a non-empty source course not linked before |
| CourseCondition.Updated | lib/courseconditionlib.php:46-65 | the table after an update has at most the old rows plus one per form entry |
| CourseCondition.UpdateCourse | lib/courseconditionlib.php:46-65 | returns true; the table is the old one without the course's rows, followed by the rows `Linked` gives for the form data |
| CourseCondition.UpdateReplacesCourseRows | lib/courseconditionlib.php:49-62 | after an update, rows of other courses are exactly the old ones, and the course's rows are exactly the inserted ones |
| CourseCondition.UpdateIdempotent | lib/courseconditionlib.php:46-65 | saving the same form data twice gives the table saving it once gives |
| CourseCondition.LinkedDistinct | lib/courseconditionlib.php:58-62 | no source course gets two rows |
| CourseCondition.LinkedSources | lib/courseconditionlib.php:52-62 | a source course gets a row exactly when some non-empty entry names it |
| CourseCondition.LinkedFirstWins | lib/courseconditionlib.php:53-62 | each row copies the bounds of the first entry naming its source course |
| CourseCondition.Verdict | lib/courseconditionlib.php:109-138 | a missing source course never holds the user back; otherwise a condition is met exactly when the grade item and the grade exist and the grade is within the bounds set; the maximum is only checked when the minimum passed; each reason (no grade item, no grade, below the minimum, above the maximum) is given exactly in its own case |
| CourseCondition.Messages | lib/courseconditionlib.php:108-139 | never more messages than conditions |
| CourseCondition.MessagesCount | lib/courseconditionlib.php:108-146 | there are exactly as many messages as outstanding conditions |
| CourseCondition.MessagesComplete | lib/courseconditionlib.php:108-146 | every outstanding condition contributes its message (source course and reason) |
| CourseCondition.MessagesEmptyIff | lib/courseconditionlib.php:108-146 | no message exactly when no condition is outstanding |
| CourseCondition.Emitted | lib/courseconditionlib.php:113-138 | one message for an outstanding condition, none otherwise |
| CourseCondition.MessagesAreOutstandingRows | lib/courseconditionlib.php:113-138 | each message names an outstanding condition's source course and its reason |
| CourseCondition.Present | lib/courseconditionlib.php:110-111 | keeps exactly the conditions whose source course exists |
| CourseCondition.MissingSourcesIgnored | lib/courseconditionlib.php:110-111 | dropping the conditions on missing courses changes nothing about the check |
| CourseCondition.CheckCompletion | lib/courseconditionlib.php:99-148 | the result is "met" (false) exactly when the course's conditions give no message (by `MessagesEmptyIff`, when none is outstanding); otherwise it is the list `Messages`, which holds one message per outstanding condition (`MessagesCount`, `MessagesComplete`, `MessagesAreOutstandingRows`) |
| CourseCondition.CheckReadsUpdatedRows | lib/courseconditionlib.php:46-65 | after an update the check judges exactly the rows the update inserted |
| CourseCondition.RTrim | lib/courseconditionlib.php:39-40 | `rtrim(s, ch)` is a prefix of s, does not end in ch, and only ch was removed |
| CourseCondition.GradeDisplay | lib/courseconditionlib.php:39-40 | a NULL bound shows as '', any other as a prefix of the stored text |
| CourseCondition.GradeDisplayOfDecimal | lib/courseconditionlib.php:37-40 | a bound stored as whole.fraction shows the whole part, then the fraction without trailing zeros when a digit of it is left |
| CourseCondition.GradeDisplayExamples | lib/courseconditionlib.php:37-40 | "5.50000" shows as "5.5" and "10.00000" as "10" |

## Left out

- Real connections are not modelled:
  - the `new mysqli(...)` call, `set_charset('utf8')`, and running the strict-mode `SET SESSION` query;
  - `ping` and `close`.

  A connection attempt is the function `connect` of `Env`. `Dispose` records closed connections in a ghost log.
- `make_mysqli` is modelled only by its pure option resolution (`ConnectOptions`).
- `Database.MasterSlaveDatabase.OpenFromPool` and `Database.MasterSlaveDatabase.Connect` do not send the failure e-mail (in the walk and after a failed master connection). The rate limit it goes through is `Alerts`. Sending mail and reading or writing the stamp file are I/O.
- `Database.MasterSlaveDatabase.Connect` takes the base driver's connection result as its parameter. The base class's `connect` is not part of this model.
- The base driver (`moodle_database` / `mysqli_native_moodle_database`) is not part of this model:
  - its `query_start`/`query_end` bookkeeping;
  - its maintenance of `reads` and `writes` (they are plain fields here);
  - its transaction handling;
  - its `dispose`;
  - `transactions_supported()`, which is a constant of the object.
- `get_cache()` is not modelled: the cache store, and `crc32(serialize(...))` keying (an arbitrary key function).
- `Database.MasterSlaveDatabase.GetSlave` and `OpenFromPool` keep the status cache as a field of the object, seeded once from the shared cache. In the source it is an application cache shared between processes, so other sessions can mark or delete entries between two `get_slave` calls and during a walk; those updates are not modelled. The `Pool` lemmas hold for any starting cache, but the object's walks always start from what this object last left.
- `get_server_info_static` is not modelled; the server version is given already split into numbers.
- `debug_backtrace` / `is_subclass_of` reflection is not modelled; the caller gives the set of class tags its stack is a subclass of.
- `shuffle` randomness is not modelled; the shuffled order is a parameter that must be a permutation of the pool.
- The model reads the clock once per walk. The source calls `time()` for each server, once for the test and once for the new mark, so a clock that advances during a slow failed attempt is not modelled.
- `Database.MasterSlaveDatabase.UseMaster` and `UseSlave` model the callback only by its effect on the two flags and its result. Effects of the callback on connections and counters, and exceptions that skip the restore, are not modelled.
- `trigger_error` in `__get` is not modelled; an unknown property simply returns null.
- `Php.IntCast`: exponent notation is not modelled. Since PHP 7.1, `(int)"1e3"` is 1000; here the cast stops at the `e` and gives 1. It matters only for a `dbport` or `dbtimeout` written that way.
- PHP integers are unbounded here; 64-bit overflow of timestamps and counters is not modelled.
- `Alerts.StampReadsBack`: proved only for timestamps below 10^24, the ones whose decimal text fits the 24-byte read.
- `Pool.WalkMarksFailures`: stated only for a non-negative clock and a positive retry interval. Otherwise the mark can be 0 (read as no mark) or already expired, and a later duplicate entry of the same server can then overwrite it.
- `coursecompletion_formelements` (form construction) and the loop of `coursecompletion_definition_after_data` that fills the form are not modelled. Only its trimming expression is (`GradeDisplay`).
- The SQL strings, `get_string` and the HTML of the requirement list are not modelled; a message is the opaque token (source course, reason).
- Grade bounds and final grades are numbers, used only in comparisons:
  - a NULL bound is `None`;
  - a stored bound is never `empty()` (it always has decimals, so even 0 is checked);
  - a NULL final grade compares below any bound and above none.
- `get_record` finding several grade items for a course is not modelled; the grade items are a map from course to item.
- A form entry's course id is a number, with 0 for the empty "none" choice.
