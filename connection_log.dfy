/**
 * Reading connection state off the VPN server's log (`getConnectionInfo`).
 * The log is taken as a sequence of lines already classified by the three
 * patterns the server matches: a peer connection for a certificate id, a
 * client instance exiting for an id, and a hardware address reported for a
 * peer address. Timestamps are integers.
 */
module ConnectionLog {
  import opened Options

  datatype LogLine =
    | PeerConnected(date: int, id: string, peer: string)
    | ClientExiting(date: int, id: string)
    | HardwareAddress(date: int, peer: string, mac: string)
    | Unmatched

  type Log = seq<LogLine>

  /** The three patterns, each built for one certificate id or one peer address. */
  datatype Pattern =
    | ConnectedPattern(id: string)
    | DisconnectedPattern(id: string)
    | HardwarePattern(peer: string)

  /** What a match yields: the timestamp (group 1) and group 2, which the disconnect pattern lacks. */
  datatype Match = Match(date: int, group: Option<string>)

  /** `{date, addr, connected}`, pushed for every connect and disconnect match. */
  datatype ConnectionResult = ConnectionResult(date: int, connected: bool, addr: Option<string>)

  /** `{date, addr}`, pushed for every hardware-address match. */
  datatype HardwareResult = HardwareResult(date: int, addr: Option<string>)

  /** What `getConnectionInfo` returns for one certificate id. */
  datatype ConnectionInfo = ConnectionInfo(id: string, connected: bool, addr: Option<string>)

  function MatchDate(m: Match): int { m.date }
  function ResultDate(r: ConnectionResult): int { r.date }
  function HardwareDate(h: HardwareResult): int { h.date }

  function MatchLine(p: Pattern, line: LogLine): Option<Match> {
    match p
    case ConnectedPattern(id) =>
      if line.PeerConnected? && line.id == id then Some(Match(line.date, Some(line.peer))) else None
    case DisconnectedPattern(id) =>
      if line.ClientExiting? && line.id == id then Some(Match(line.date, None)) else None
    case HardwarePattern(peer) =>
      if line.HardwareAddress? && line.peer == peer then Some(Match(line.date, Some(line.mac))) else None
  }

  predicate Hit(p: Pattern, line: LogLine) {
    MatchLine(p, line).Some?
  }

  /** A connect or disconnect line for the certificate `id`. */
  predicate IsEventOf(line: LogLine, id: string) {
    (line.PeerConnected? || line.ClientExiting?) && line.id == id
  }

  /** Every match of a pattern, in log order, as successive `regex.exec` calls return them. */
  function Matches(log: Log, p: Pattern): seq<Match>
    decreases |log|
  {
    if log == [] then []
    else
      var m := MatchLine(p, log[|log| - 1]);
      Matches(log[..|log| - 1], p) + (if m.Some? then [m.value] else [])
  }

  function ToResults(ms: seq<Match>, connected: bool): seq<ConnectionResult> {
    seq(|ms|, k requires 0 <= k < |ms| => ConnectionResult(ms[k].date, connected, ms[k].group))
  }

  function ToHardware(ms: seq<Match>): seq<HardwareResult> {
    seq(|ms|, k requires 0 <= k < |ms| => HardwareResult(ms[k].date, ms[k].group))
  }

  /** `connectionResults` after both scans: every connect result, then every disconnect result. */
  function ConnectionResults(log: Log, id: string): seq<ConnectionResult> {
    ToResults(Matches(log, ConnectedPattern(id)), true) + ToResults(Matches(log, DisconnectedPattern(id)), false)
  }

  /** `hardwareResults` after the scan for one peer address. */
  function HardwareResults(log: Log, peer: string): seq<HardwareResult> {
    ToHardware(Matches(log, HardwarePattern(peer)))
  }

  /** `filter(x => x.connected)` */
  function ConnectedOnly(s: seq<ConnectionResult>): seq<ConnectionResult>
    decreases |s|
  {
    if s == [] then [] else (if s[0].connected then [s[0]] else []) + ConnectedOnly(s[1..])
  }

  /** `find(x => x)`: every result object is truthy, so this is the first element. */
  function First<T>(s: seq<T>): Option<T> {
    if s == [] then None else Some(s[0])
  }

  /**
   * Insert `x` into a sequence sorted newest first, after every element
   * that is not older than `x`.
   */
  function InsertByDate<T>(sorted: seq<T>, x: T, date: T -> int): seq<T>
    decreases |sorted|
  {
    if sorted == [] then [x]
    else if date(sorted[0]) < date(x) then [x] + sorted
    else [sorted[0]] + InsertByDate(sorted[1..], x, date)
  }

  /**
   * `sort((a, b) => b.date - a.date)`: newest first; the sort is stable, so
   * elements with equal dates keep their order.
   */
  function SortByDateDesc<T>(s: seq<T>, date: T -> int): seq<T>
    decreases |s|
  {
    if s == [] then [] else InsertByDate(SortByDateDesc(s[..|s| - 1], date), s[|s| - 1], date)
  }

  /** `s[k]` is dated no earlier than any element, and strictly later than every element before it. */
  ghost predicate NewestAt<T>(s: seq<T>, date: T -> int, k: int) {
    && 0 <= k < |s|
    && (forall j :: 0 <= j < |s| ==> date(s[j]) <= date(s[k]))
    && (forall j :: 0 <= j < k ==> date(s[j]) < date(s[k]))
  }

  /** The first of the newest elements. */
  function NewestIndex<T>(s: seq<T>, date: T -> int): (k: int)
    requires |s| > 0
    ensures NewestAt(s, date, k)
    decreases |s|
  {
    if |s| == 1 then 0
    else
      var p := NewestIndex(s[..|s| - 1], date);
      if date(s[p]) < date(s[|s| - 1]) then |s| - 1 else p
  }

  /** The status of certificate `id` as the log shows it. */
  function ConnectionInfoOf(id: string, log: Log): ConnectionInfo {
    var results := ConnectionResults(log, id);
    var latestConnect := First(SortByDateDesc(ConnectedOnly(results), ResultDate));
    var addr := if latestConnect.Some? then latestConnect.value.addr else None;
    var hardware := if addr.Some? then HardwareResults(log, addr.value) else [];
    var latest := First(SortByDateDesc(results, ResultDate));
    var latestHardware := First(SortByDateDesc(hardware, HardwareDate));
    ConnectionInfo(id, latest.Some? && latest.value.connected,
                   if latestHardware.Some? then latestHardware.value.addr else None)
  }

  // ---------------------------------------------------------------------------
  // The scans, as the server runs them

  lemma MatchesStep(log: Log, p: Pattern, i: int)
    requires 0 <= i < |log|
    ensures Matches(log[..i + 1], p) ==
      Matches(log[..i], p) + (if Hit(p, log[i]) then [MatchLine(p, log[i]).value] else [])
  {
    assert log[..i + 1][..i] == log[..i];
  }

  /** `getConnectionInfo`, with its three `while (regex.exec(...))` scans. */
  method GetConnectionInfo(id: string, log: Log) returns (info: ConnectionInfo)
    ensures info == ConnectionInfoOf(id, log)
  {
    var connectionResults: seq<ConnectionResult> := [];
    var hardwareResults: seq<HardwareResult> := [];
    var i := 0;
    while i < |log|
      invariant 0 <= i <= |log|
      invariant connectionResults == ToResults(Matches(log[..i], ConnectedPattern(id)), true)
    {
      MatchesStep(log, ConnectedPattern(id), i);
      var m := MatchLine(ConnectedPattern(id), log[i]);
      if m.Some? {
        connectionResults := connectionResults + [ConnectionResult(m.value.date, true, m.value.group)];
      }
      i := i + 1;
    }
    assert log[..|log|] == log;
    ghost var connects := connectionResults;
    i := 0;
    while i < |log|
      invariant 0 <= i <= |log|
      invariant connectionResults == connects + ToResults(Matches(log[..i], DisconnectedPattern(id)), false)
    {
      MatchesStep(log, DisconnectedPattern(id), i);
      var m := MatchLine(DisconnectedPattern(id), log[i]);
      if m.Some? {
        connectionResults := connectionResults + [ConnectionResult(m.value.date, false, m.value.group)];
      }
      i := i + 1;
    }
    var latestConnect := First(SortByDateDesc(ConnectedOnly(connectionResults), ResultDate));
    var addr := if latestConnect.Some? then latestConnect.value.addr else None;
    if addr.Some? {
      i := 0;
      while i < |log|
        invariant 0 <= i <= |log|
        invariant hardwareResults == ToHardware(Matches(log[..i], HardwarePattern(addr.value)))
      {
        MatchesStep(log, HardwarePattern(addr.value), i);
        var m := MatchLine(HardwarePattern(addr.value), log[i]);
        if m.Some? {
          hardwareResults := hardwareResults + [HardwareResult(m.value.date, m.value.group)];
        }
        i := i + 1;
      }
    }
    var latest := First(SortByDateDesc(connectionResults, ResultDate));
    var latestHardware := First(SortByDateDesc(hardwareResults, HardwareDate));
    info := ConnectionInfo(id, latest.Some? && latest.value.connected,
                           if latestHardware.Some? then latestHardware.value.addr else None);
  }

  /**
   * `getConnectedCertificates`: one log fetch (`None` when the listing tool
   * fails), then the status of every id in turn; nothing when the tool failed.
   */
  method GetConnectedCertificates(ids: seq<string>, log: Option<Log>) returns (infos: seq<ConnectionInfo>)
    ensures log.None? ==> infos == []
    ensures log.Some? ==> |infos| == |ids|
    ensures log.Some? ==> forall k :: 0 <= k < |ids| ==> infos[k] == ConnectionInfoOf(ids[k], log.value)
  {
    infos := [];
    if log.Some? {
      for k := 0 to |ids|
        invariant |infos| == k
        invariant forall j :: 0 <= j < k ==> infos[j] == ConnectionInfoOf(ids[j], log.value)
      {
        var info := GetConnectionInfo(ids[k], log.value);
        infos := infos + [info];
      }
    }
  }
}
