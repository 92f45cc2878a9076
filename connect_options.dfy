/**
 * The connection parameters `make_mysqli` derives from a server entry before
 * it opens the connection, and its check of the server version that decides
 * whether strict mode is switched on afterwards.
 */
module ConnectOptions {
  import opened Php

  /** The port used when neither the entry nor `mysqli.default_port` gives a usable one. */
  const FallbackPort := 3306

  /**
   * The socket: the entry's `dbsocket` when it is non-empty and looks like a
   * path (holds '/' or '\'), otherwise `mysqli.default_socket`.
   */
  function Socket(dbsocket: string, defaultSocket: string): (r: string)
    ensures ('/' in dbsocket || '\\' in dbsocket) ==> r == dbsocket
    ensures !('/' in dbsocket || '\\' in dbsocket) ==> r == defaultSocket
  {
    if Truthy(dbsocket) && ('/' in dbsocket || '\\' in dbsocket) then dbsocket else defaultSocket
  }

  /**
   * The port: the entry's `dbport` cast to an integer when the option is
   * non-empty, otherwise `mysqli.default_port` cast to an integer; a result
   * of 0 is replaced by 3306.
   */
  function Port(dbport: string, defaultPort: string): (r: int)
    ensures r != 0
    ensures Truthy(dbport) && IntCast(dbport) != 0 ==> r == IntCast(dbport)
    ensures !Truthy(dbport) && IntCast(defaultPort) != 0 ==> r == IntCast(defaultPort)
    ensures r == FallbackPort || r == IntCast(if Truthy(dbport) then dbport else defaultPort)
  {
    var port := if !Truthy(dbport) then IntCast(defaultPort) else IntCast(dbport);
    if port == 0 then FallbackPort else port
  }

  /** A port written as a decimal number in the entry is the port used. */
  lemma PortOfDecimal(p: nat, defaultPort: string)
    requires p > 0
    ensures Port(DecimalString(p), defaultPort) == p
  {
    DecimalStringTruthy(p);
    IntCastOfDecimal(p);
  }

  /** The host: a non-empty host of a persistent entry gets the `p:` prefix. */
  function Host(dbhost: string, dbpersist: bool): (r: string)
    ensures Truthy(dbhost) && dbpersist ==> r == "p:" + dbhost
    ensures !(Truthy(dbhost) && dbpersist) ==> r == dbhost
    ensures |r| <= |dbhost| + 2 && r[|r| - |dbhost|..] == dbhost
  {
    if Truthy(dbhost) && dbpersist then "p:" + dbhost else dbhost
  }

  /**
   * `version_compare` on versions already split into their numeric parts:
   * -1, 0 or 1 as `a` is older than, equal to or newer than `b`; a version
   * that extends another with more parts is the newer one.
   */
  function CompareVersions(a: seq<nat>, b: seq<nat>): (c: int)
    ensures -1 <= c <= 1
    ensures c == 0 <==> a == b
    ensures a != [] && b != [] && a[0] != b[0] ==> (c == 1 <==> a[0] > b[0])
    ensures a < b ==> c == -1
  {
    if a == [] && b == [] then 0
    else if a == [] then -1
    else if b == [] then 1
    else if a[0] < b[0] then -1
    else if a[0] > b[0] then 1
    else CompareVersions(a[1..], b[1..])
  }

  /**
   * The comparison is decided at the first part where the versions differ:
   * the larger part is the newer version.
   */
  lemma {:induction false} CompareVersionsFirstDifference(a: seq<nat>, b: seq<nat>, k: nat)
    requires k < |a| && k < |b| && a[..k] == b[..k] && a[k] != b[k]
    ensures CompareVersions(a, b) == 1 <==> a[k] > b[k]
  {
    if k > 0 {
      assert a[0] == a[..k][0] == b[..k][0] == b[0];
      assert a[1..][..k - 1] == a[1..k] == a[..k][1..];
      assert b[1..][..k - 1] == b[1..k] == b[..k][1..];
      CompareVersionsFirstDifference(a[1..], b[1..], k - 1);
    }
  }

  /** Swapping the versions flips the comparison. */
  lemma {:induction false} CompareVersionsFlips(a: seq<nat>, b: seq<nat>)
    ensures CompareVersions(b, a) == -CompareVersions(a, b)
  {
    if a != [] && b != [] && a[0] == b[0] {
      CompareVersionsFlips(a[1..], b[1..]);
    }
  }

  /** "At least as new as" is transitive. */
  lemma {:induction false} AtLeastTransitive(a: seq<nat>, b: seq<nat>, c: seq<nat>)
    requires CompareVersions(a, b) >= 0 && CompareVersions(b, c) >= 0
    ensures CompareVersions(a, c) >= 0
  {
    if a != [] && b != [] && c != [] && a[0] == b[0] && b[0] == c[0] {
      AtLeastTransitive(a[1..], b[1..], c[1..]);
    }
  }

  /** The oldest server version that gets `sql_mode = 'STRICT_ALL_TABLES'`. */
  const StrictModeVersion: seq<nat> := [5, 0, 2]

  /** Whether the new connection is switched to strict mode. */
  function WantsStrictMode(version: seq<nat>): (b: bool)
    ensures b <==> |version| > 0 && (version[0] > 5 || (version[0] == 5 && |version| > 1 &&
                     (version[1] > 0 || (version[1] == 0 && |version| > 2 && version[2] >= 2))))
  {
    AtLeastStrictModeVersion(version);
    CompareVersions(version, StrictModeVersion) >= 0
  }

  /** Comparing against 5.0.2 part by part. */
  lemma AtLeastStrictModeVersion(v: seq<nat>)
    ensures CompareVersions(v, StrictModeVersion) >= 0 <==>
              |v| > 0 && (v[0] > 5 || (v[0] == 5 && |v| > 1 &&
                (v[1] > 0 || (v[1] == 0 && |v| > 2 && v[2] >= 2))))
  {
    assert StrictModeVersion[1..] == [0, 2] && [0, 2][1..] == [2] && [2][1..] == [];
    if |v| > 0 && v[0] == 5 {
      assert CompareVersions(v, StrictModeVersion) == CompareVersions(v[1..], [0, 2]);
      if |v| > 1 && v[1] == 0 {
        assert CompareVersions(v[1..], [0, 2]) == CompareVersions(v[2..], [2]);
        assert v[1..][1..] == v[2..];
        if |v| > 2 && v[2] == 2 {
          assert CompareVersions(v[2..], [2]) == CompareVersions(v[3..], []);
        }
      }
    }
  }

  /** 5.0.2 and later releases get strict mode; 5.0.1 and 4.1.20 do not. */
  lemma StrictModeExamples()
    ensures WantsStrictMode([5, 0, 2]) && WantsStrictMode([5, 7, 21]) && WantsStrictMode([8, 0])
    ensures !WantsStrictMode([5, 0, 1]) && !WantsStrictMode([4, 1, 20]) && !WantsStrictMode([5, 0])
  {
  }

  /** Any server at least as new as one that gets strict mode gets it too. */
  lemma StrictModeUpward(older: seq<nat>, newer: seq<nat>)
    requires WantsStrictMode(older) && CompareVersions(newer, older) >= 0
    ensures WantsStrictMode(newer)
  {
    AtLeastTransitive(newer, older, StrictModeVersion);
  }
}
