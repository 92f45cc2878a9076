/**
 * The rate limit on the connection-failure e-mail of `process_moodle_exception`.
 * The stamp file `emailcount` holds the time of the last alert as decimal text;
 * an alert goes out when no stamp file exists or when more than 600 seconds
 * have passed since the time it records, and sending rewrites the stamp.
 */
module Alerts {
  import opened Wrappers
  import opened Php

  /** Seconds an alert suppresses the next one. */
  const SuppressSeconds := 600

  /** How many bytes of the stamp file are read back. */
  const StampReadBytes: nat := 24

  /** Alerts are enabled: `noemailever` is not set and `emailconnectionerrorsto` is non-empty. */
  predicate AlertsEnabled(noEmailEver: bool, recipient: string) {
    !noEmailEver && Truthy(recipient)
  }

  /** Whether a connection failure at `now` sends an alert, given the stamp file's content (None: no file). */
  function AlertDue(noEmailEver: bool, recipient: string, stamp: Option<string>, now: nat): (send: bool)
    ensures send ==> AlertsEnabled(noEmailEver, recipient)
    ensures AlertsEnabled(noEmailEver, recipient) && stamp.None? ==> send
  {
    AlertsEnabled(noEmailEver, recipient) &&
    (stamp.None? || now - IntCast(Prefix(stamp.value, StampReadBytes)) > SuppressSeconds)
  }

  /** The stamp file after a connection failure at `now`: rewritten with `now` when an alert was sent. */
  function StampAfter(noEmailEver: bool, recipient: string, stamp: Option<string>, now: nat): (s: Option<string>)
    ensures AlertDue(noEmailEver, recipient, stamp, now) ==> s == Some(DecimalString(now))
    ensures !AlertDue(noEmailEver, recipient, stamp, now) ==> s == stamp
  {
    if AlertDue(noEmailEver, recipient, stamp, now) then Some(DecimalString(now)) else stamp
  }

  /** The bound on timestamps under which the stamp survives the 24-byte read. */
  const StampLimit: nat := Pow10(StampReadBytes)

  /** A stamp written at `t` reads back as `t`. */
  lemma {:induction false} StampReadsBack(t: nat)
    requires t < StampLimit
    ensures IntCast(Prefix(DecimalString(t), StampReadBytes)) == t
  {
    DecimalStringLength(t, StampReadBytes);
    IntCastOfDecimal(t);
  }

  /** After an alert at `t1`, no failure up to 600 seconds later sends another. */
  lemma AlertSuppressedInWindow(noEmailEver: bool, recipient: string, stamp: Option<string>, t1: nat, t2: nat)
    requires AlertDue(noEmailEver, recipient, stamp, t1)
    requires t1 < StampLimit && t2 <= t1 + SuppressSeconds
    ensures !AlertDue(noEmailEver, recipient, StampAfter(noEmailEver, recipient, stamp, t1), t2)
  {
    StampReadsBack(t1);
  }

  /** After an alert at `t1`, the first failure more than 600 seconds later sends again. */
  lemma AlertResumesAfterWindow(noEmailEver: bool, recipient: string, stamp: Option<string>, t1: nat, t2: nat)
    requires AlertDue(noEmailEver, recipient, stamp, t1)
    requires t1 < StampLimit && t2 > t1 + SuppressSeconds
    ensures AlertDue(noEmailEver, recipient, StampAfter(noEmailEver, recipient, stamp, t1), t2)
  {
    StampReadsBack(t1);
  }
}
