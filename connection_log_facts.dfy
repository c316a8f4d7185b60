/**
 * What `getConnectionInfo` computes, stated against the log itself: the
 * stable newest-first sort, the matches of each pattern, and the resulting
 * `connected` flag and hardware address.
 */
module ConnectionLogFacts {
  import opened Options
  import opened ConnectionLog

  // ---------------------------------------------------------------------------
  // The newest-first sort

  ghost predicate NewestFirst<T>(s: seq<T>, date: T -> int) {
    forall i, j :: 0 <= i < j < |s| ==> date(s[j]) <= date(s[i])
  }

  lemma {:induction false} InsertByDatePermutes<T>(sorted: seq<T>, x: T, date: T -> int)
    ensures multiset(InsertByDate(sorted, x, date)) == multiset(sorted) + multiset{x}
    decreases |sorted|
  {
    if sorted != [] && date(x) <= date(sorted[0]) {
      InsertByDatePermutes(sorted[1..], x, date);
      assert sorted == [sorted[0]] + sorted[1..];
    }
  }

  /** Inserting keeps every element at or below a common bound. */
  lemma {:induction false} InsertByDateBounded<T>(sorted: seq<T>, x: T, date: T -> int, bound: int)
    requires forall k :: 0 <= k < |sorted| ==> date(sorted[k]) <= bound
    requires date(x) <= bound
    ensures forall k :: 0 <= k < |InsertByDate(sorted, x, date)| ==> date(InsertByDate(sorted, x, date)[k]) <= bound
    decreases |sorted|
  {
    if sorted != [] && date(x) <= date(sorted[0]) {
      InsertByDateBounded(sorted[1..], x, date, bound);
    }
  }

  lemma ConsNewestFirst<T>(h: T, r: seq<T>, date: T -> int)
    requires NewestFirst(r, date)
    requires forall k :: 0 <= k < |r| ==> date(r[k]) <= date(h)
    ensures NewestFirst([h] + r, date)
  {
    var s := [h] + r;
    forall i, j | 0 <= i < j < |s| ensures date(s[j]) <= date(s[i]) {
      assert s[j] == r[j - 1];
      if i > 0 {
        assert s[i] == r[i - 1];
      }
    }
  }

  lemma {:induction false} InsertByDateKeepsOrder<T>(sorted: seq<T>, x: T, date: T -> int)
    requires NewestFirst(sorted, date)
    ensures NewestFirst(InsertByDate(sorted, x, date), date)
    decreases |sorted|
  {
    if sorted == [] {
    } else if date(sorted[0]) < date(x) {
      ConsNewestFirst(x, sorted, date);
    } else {
      var tail := sorted[1..];
      assert NewestFirst(tail, date) by {
        forall i, j | 0 <= i < j < |tail| ensures date(tail[j]) <= date(tail[i]) {
          assert tail[i] == sorted[i + 1] && tail[j] == sorted[j + 1];
        }
      }
      forall k | 0 <= k < |tail| ensures date(tail[k]) <= date(sorted[0]) {
        assert tail[k] == sorted[k + 1];
      }
      InsertByDateKeepsOrder(tail, x, date);
      InsertByDateBounded(tail, x, date, date(sorted[0]));
      ConsNewestFirst(sorted[0], InsertByDate(tail, x, date), date);
    }
  }

  /** The sort is a permutation, newest first. */
  lemma {:induction false} SortByDateDescSorts<T>(s: seq<T>, date: T -> int)
    ensures multiset(SortByDateDesc(s, date)) == multiset(s)
    ensures |SortByDateDesc(s, date)| == |s|
    ensures NewestFirst(SortByDateDesc(s, date), date)
    decreases |s|
  {
    if s != [] {
      var prefix := s[..|s| - 1];
      SortByDateDescSorts(prefix, date);
      InsertByDatePermutes(SortByDateDesc(prefix, date), s[|s| - 1], date);
      InsertByDateKeepsOrder(SortByDateDesc(prefix, date), s[|s| - 1], date);
      assert s == prefix + [s[|s| - 1]];
    }
    assert |multiset(SortByDateDesc(s, date))| == |SortByDateDesc(s, date)|;
  }

  /**
   * Because the sort is stable, its head is the FIRST of the newest
   * elements.
   */
  lemma {:induction false} SortHeadIsNewest<T>(s: seq<T>, date: T -> int)
    requires |s| > 0
    ensures |SortByDateDesc(s, date)| == |s|
    ensures SortByDateDesc(s, date)[0] == s[NewestIndex(s, date)]
    decreases |s|
  {
    SortByDateDescSorts(s, date);
    var prefix := s[..|s| - 1];
    if |s| > 1 {
      SortHeadIsNewest(prefix, date);
      assert prefix[NewestIndex(prefix, date)] == s[NewestIndex(prefix, date)];
    }
  }

  /** `NewestIndex` only looks at the dates. */
  lemma {:induction false} NewestIndexByDates<A, B>(s: seq<A>, t: seq<B>, f: A -> int, g: B -> int)
    requires |s| == |t| > 0
    requires forall k :: 0 <= k < |s| ==> f(s[k]) == g(t[k])
    ensures NewestIndex(s, f) == NewestIndex(t, g)
    decreases |s|
  {
    if |s| > 1 {
      NewestIndexByDates(s[..|s| - 1], t[..|t| - 1], f, g);
    }
  }

  // ---------------------------------------------------------------------------
  // Matches and the log lines they come from

  /** The line matched by a pattern, newest of all such lines and the first of them in log order. */
  ghost predicate LatestMatchAt(log: Log, p: Pattern, i: int) {
    && 0 <= i < |log| && Hit(p, log[i])
    && (forall j :: 0 <= j < |log| && Hit(p, log[j]) ==> log[j].date <= log[i].date)
    && (forall j :: 0 <= j < i && Hit(p, log[j]) ==> log[j].date < log[i].date)
  }

  lemma {:induction false} MatchesFromLog(log: Log, p: Pattern, k: int)
    requires 0 <= k < |Matches(log, p)|
    ensures exists i :: 0 <= i < |log| && MatchLine(p, log[i]) == Some(Matches(log, p)[k])
    decreases |log|
  {
    var prefix := log[..|log| - 1];
    if k < |Matches(prefix, p)| {
      MatchesFromLog(prefix, p, k);
      var i :| 0 <= i < |prefix| && MatchLine(p, prefix[i]) == Some(Matches(prefix, p)[k]);
      assert log[i] == prefix[i];
    } else {
      assert MatchLine(p, log[|log| - 1]) == Some(Matches(log, p)[k]);
    }
  }

  lemma {:induction false} MatchesCoverLog(log: Log, p: Pattern, i: int)
    requires 0 <= i < |log| && Hit(p, log[i])
    ensures MatchLine(p, log[i]).value in Matches(log, p)
    decreases |log|
  {
    var prefix := log[..|log| - 1];
    if i < |log| - 1 {
      assert prefix[i] == log[i];
      MatchesCoverLog(prefix, p, i);
    }
  }

  lemma LatestMatchUnique(log: Log, p: Pattern, i: int, i': int)
    requires LatestMatchAt(log, p, i) && LatestMatchAt(log, p, i')
    ensures i == i'
  {
  }

  /** The latest match of the log without its last line, when that line does not match. */
  lemma LatestSkipsUnmatched(log: Log, p: Pattern, i: int)
    requires |log| > 0 && !Hit(p, log[|log| - 1])
    requires LatestMatchAt(log[..|log| - 1], p, i)
    ensures LatestMatchAt(log, p, i)
  {
    var prefix := log[..|log| - 1];
    forall j | 0 <= j < |log| && Hit(p, log[j]) ensures log[j].date <= log[i].date {
      assert prefix[j] == log[j];
    }
    forall j | 0 <= j < i && Hit(p, log[j]) ensures log[j].date < log[i].date {
      assert prefix[j] == log[j];
    }
  }

  /** An earlier latest match stays latest when the last line matches no later. */
  lemma LatestSurvivesOlder(log: Log, p: Pattern, i: int)
    requires |log| > 0 && Hit(p, log[|log| - 1])
    requires LatestMatchAt(log[..|log| - 1], p, i)
    requires log[|log| - 1].date <= log[i].date
    ensures LatestMatchAt(log, p, i)
  {
    var prefix := log[..|log| - 1];
    forall j | 0 <= j < |log| && Hit(p, log[j]) ensures log[j].date <= log[i].date {
      if j < |log| - 1 {
        assert prefix[j] == log[j];
      }
    }
    forall j | 0 <= j < i && Hit(p, log[j]) ensures log[j].date < log[i].date {
      assert prefix[j] == log[j];
    }
  }

  /** The last line is the latest match when every earlier match is older. */
  lemma LatestIsLast(log: Log, p: Pattern)
    requires |log| > 0 && Hit(p, log[|log| - 1])
    requires forall j :: 0 <= j < |log| - 1 && Hit(p, log[j]) ==> log[j].date < log[|log| - 1].date
    ensures LatestMatchAt(log, p, |log| - 1)
  {
  }

  /** The newest match, taken first-of-equals, comes from the latest matching line. */
  lemma {:induction false} NewestMatchInLog(log: Log, p: Pattern)
    requires |Matches(log, p)| > 0
    ensures exists i ::
      && LatestMatchAt(log, p, i)
      && Matches(log, p)[NewestIndex(Matches(log, p), MatchDate)] == MatchLine(p, log[i]).value
    decreases |log|
  {
    var n := |log|;
    var prefix := log[..n - 1];
    var mp := Matches(prefix, p);
    var ms := Matches(log, p);
    if !Hit(p, log[n - 1]) {
      assert ms == mp;
      NewestMatchInLog(prefix, p);
      var i :| LatestMatchAt(prefix, p, i) && mp[NewestIndex(mp, MatchDate)] == MatchLine(p, prefix[i]).value;
      LatestSkipsUnmatched(log, p, i);
      assert prefix[i] == log[i];
    } else {
      var x := MatchLine(p, log[n - 1]).value;
      assert ms == mp + [x];
      assert ms[..|ms| - 1] == mp;
      if mp == [] {
        forall j | 0 <= j < n - 1 ensures !Hit(p, log[j]) {
          assert prefix[j] == log[j];
          if Hit(p, prefix[j]) {
            MatchesCoverLog(prefix, p, j);
          }
        }
        LatestIsLast(log, p);
      } else {
        NewestMatchInLog(prefix, p);
        var q := NewestIndex(mp, MatchDate);
        var i :| LatestMatchAt(prefix, p, i) && mp[q] == MatchLine(p, prefix[i]).value;
        assert prefix[i] == log[i];
        if mp[q].date < x.date {
          forall j | 0 <= j < n - 1 && Hit(p, log[j]) ensures log[j].date < log[n - 1].date {
            assert prefix[j] == log[j];
          }
          LatestIsLast(log, p);
        } else {
          assert ms[q] == mp[q];
          LatestSurvivesOlder(log, p, i);
        }
      }
    }
  }

  /** A pattern that matches some line has a latest matching line. */
  lemma LatestMatchExists(log: Log, p: Pattern, i0: int)
    requires 0 <= i0 < |log| && Hit(p, log[i0])
    ensures exists i :: LatestMatchAt(log, p, i)
  {
    MatchesCoverLog(log, p, i0);
    NewestMatchInLog(log, p);
  }

  // ---------------------------------------------------------------------------
  // The connect filter

  lemma {:induction false} ConnectedOnlyAppend(a: seq<ConnectionResult>, b: seq<ConnectionResult>)
    ensures ConnectedOnly(a + b) == ConnectedOnly(a) + ConnectedOnly(b)
    decreases |a|
  {
    if a == [] {
      assert a + b == b;
    } else {
      assert (a + b)[1..] == a[1..] + b;
      ConnectedOnlyAppend(a[1..], b);
    }
  }

  lemma {:induction false} ConnectedOnlyKeeps(s: seq<ConnectionResult>)
    requires forall k :: 0 <= k < |s| ==> s[k].connected
    ensures ConnectedOnly(s) == s
    decreases |s|
  {
    if s != [] {
      ConnectedOnlyKeeps(s[1..]);
    }
  }

  lemma {:induction false} ConnectedOnlyDrops(s: seq<ConnectionResult>)
    requires forall k :: 0 <= k < |s| ==> !s[k].connected
    ensures ConnectedOnly(s) == []
    decreases |s|
  {
    if s != [] {
      ConnectedOnlyDrops(s[1..]);
    }
  }

  /** Filtering the results for connects leaves exactly the connect results. */
  lemma ConnectedOnlyOfResults(log: Log, id: string)
    ensures ConnectedOnly(ConnectionResults(log, id)) == ToResults(Matches(log, ConnectedPattern(id)), true)
  {
    var c := ToResults(Matches(log, ConnectedPattern(id)), true);
    var d := ToResults(Matches(log, DisconnectedPattern(id)), false);
    ConnectedOnlyAppend(c, d);
    ConnectedOnlyKeeps(c);
    ConnectedOnlyDrops(d);
  }

  // ---------------------------------------------------------------------------
  // Results and the events they come from

  lemma ResultHasEvent(log: Log, id: string, k: int)
    requires 0 <= k < |ConnectionResults(log, id)|
    ensures exists j :: && 0 <= j < |log| && IsEventOf(log[j], id)
                        && log[j].date == ConnectionResults(log, id)[k].date
                        && (log[j].PeerConnected? <==> ConnectionResults(log, id)[k].connected)
  {
    var mc := Matches(log, ConnectedPattern(id));
    var md := Matches(log, DisconnectedPattern(id));
    var r := ConnectionResults(log, id);
    if k < |mc| {
      assert r[k] == ConnectionResult(mc[k].date, true, mc[k].group);
      MatchesFromLog(log, ConnectedPattern(id), k);
      var j :| 0 <= j < |log| && MatchLine(ConnectedPattern(id), log[j]) == Some(mc[k]);
      assert IsEventOf(log[j], id);
    } else {
      assert r[k] == ConnectionResult(md[k - |mc|].date, false, md[k - |mc|].group);
      MatchesFromLog(log, DisconnectedPattern(id), k - |mc|);
      var j :| 0 <= j < |log| && MatchLine(DisconnectedPattern(id), log[j]) == Some(md[k - |mc|]);
      assert IsEventOf(log[j], id);
    }
  }

  lemma EventHasResult(log: Log, id: string, j: int)
    requires 0 <= j < |log| && IsEventOf(log[j], id)
    ensures exists k :: && 0 <= k < |ConnectionResults(log, id)|
                        && ConnectionResults(log, id)[k].date == log[j].date
                        && (ConnectionResults(log, id)[k].connected <==> log[j].PeerConnected?)
  {
    var mc := Matches(log, ConnectedPattern(id));
    var md := Matches(log, DisconnectedPattern(id));
    var r := ConnectionResults(log, id);
    if log[j].PeerConnected? {
      MatchesCoverLog(log, ConnectedPattern(id), j);
      var m :| 0 <= m < |mc| && mc[m] == MatchLine(ConnectedPattern(id), log[j]).value;
      assert r[m] == ConnectionResult(mc[m].date, true, mc[m].group);
    } else {
      MatchesCoverLog(log, DisconnectedPattern(id), j);
      var m :| 0 <= m < |md| && md[m] == MatchLine(DisconnectedPattern(id), log[j]).value;
      assert r[|mc| + m] == ConnectionResult(md[m].date, false, md[m].group);
    }
  }

  // ---------------------------------------------------------------------------
  // What the status means

  /** Line `i` connects `id`, and no event of `id` is dated later. */
  ghost predicate ConnectIsLatest(log: Log, id: string, i: int) {
    && 0 <= i < |log| && log[i].PeerConnected? && log[i].id == id
    && forall j :: 0 <= j < |log| && IsEventOf(log[j], id) ==> log[j].date <= log[i].date
  }

  /**
   * A certificate is reported connected exactly when some connect line for
   * it is dated no earlier than any connect or disconnect line for it: a
   * disconnect with the same timestamp as the newest connect does not win,
   * because the connect results come first and the sort is stable.
   */
  lemma ConnectedIffLatestEventIsConnect(id: string, log: Log)
    ensures ConnectionInfoOf(id, log).connected <==> exists i :: ConnectIsLatest(log, id, i)
  {
    var mc := Matches(log, ConnectedPattern(id));
    var r := ConnectionResults(log, id);
    if |r| == 0 {
      if exists i :: ConnectIsLatest(log, id, i) {
        var i :| ConnectIsLatest(log, id, i);
        EventHasResult(log, id, i);
      }
    } else {
      var k := NewestIndex(r, ResultDate);
      SortHeadIsNewest(r, ResultDate);
      assert ConnectionInfoOf(id, log).connected == r[k].connected;
      assert forall m :: 0 <= m < |r| ==> (r[m].connected <==> m < |mc|);
      ResultHasEvent(log, id, k);
      var j0 :| && 0 <= j0 < |log| && IsEventOf(log[j0], id) && log[j0].date == r[k].date
                && (log[j0].PeerConnected? <==> r[k].connected);
      if r[k].connected {
        forall j | 0 <= j < |log| && IsEventOf(log[j], id) ensures log[j].date <= log[j0].date {
          EventHasResult(log, id, j);
        }
        assert ConnectIsLatest(log, id, j0);
      }
      if exists i :: ConnectIsLatest(log, id, i) {
        var i :| ConnectIsLatest(log, id, i);
        EventHasResult(log, id, i);
        var m :| 0 <= m < |r| && r[m].date == log[i].date && r[m].connected;
        assert r[k].date <= log[i].date;
        assert k <= m;
      }
    }
  }

  /** A certificate with no connect line in the log is never reported connected. */
  lemma NeverConnectedIsDisconnected(id: string, log: Log)
    requires forall i :: 0 <= i < |log| ==> !(log[i].PeerConnected? && log[i].id == id)
    ensures !ConnectionInfoOf(id, log).connected
  {
    ConnectedIffLatestEventIsConnect(id, log);
  }

  /** A disconnect dated strictly after every connect line means not connected. */
  lemma LaterExitDisconnects(id: string, log: Log, e: int)
    requires 0 <= e < |log| && log[e].ClientExiting? && log[e].id == id
    requires forall i :: 0 <= i < |log| && log[i].PeerConnected? && log[i].id == id ==> log[i].date < log[e].date
    ensures !ConnectionInfoOf(id, log).connected
  {
    ConnectedIffLatestEventIsConnect(id, log);
  }

  /** The newest connect result carries the peer address of the latest connect line. */
  lemma LatestConnectAddr(id: string, log: Log, i: int)
    requires LatestMatchAt(log, ConnectedPattern(id), i)
    ensures |ConnectedOnly(ConnectionResults(log, id))| > 0
    ensures SortByDateDesc(ConnectedOnly(ConnectionResults(log, id)), ResultDate)[0].addr == Some(log[i].peer)
  {
    var cp := ConnectedPattern(id);
    var mc := Matches(log, cp);
    var c := ToResults(mc, true);
    ConnectedOnlyOfResults(log, id);
    MatchesCoverLog(log, cp, i);
    SortHeadIsNewest(c, ResultDate);
    NewestIndexByDates(c, mc, ResultDate, MatchDate);
    NewestMatchInLog(log, cp);
    var i' :| LatestMatchAt(log, cp, i') && mc[NewestIndex(mc, MatchDate)] == MatchLine(cp, log[i']).value;
    LatestMatchUnique(log, cp, i, i');
  }

  /** The newest hardware result carries the address of the latest hardware line. */
  lemma LatestHardwareAddr(log: Log, peer: string, j: int)
    requires LatestMatchAt(log, HardwarePattern(peer), j)
    ensures |HardwareResults(log, peer)| > 0
    ensures SortByDateDesc(HardwareResults(log, peer), HardwareDate)[0].addr == Some(log[j].mac)
  {
    var hp := HardwarePattern(peer);
    var mh := Matches(log, hp);
    var h := ToHardware(mh);
    MatchesCoverLog(log, hp, j);
    SortHeadIsNewest(h, HardwareDate);
    NewestIndexByDates(h, mh, HardwareDate, MatchDate);
    NewestMatchInLog(log, hp);
    var j' :| LatestMatchAt(log, hp, j') && mh[NewestIndex(mh, MatchDate)] == MatchLine(hp, log[j']).value;
    LatestMatchUnique(log, hp, j, j');
  }

  /**
   * The reported hardware address is the one in the latest hardware line
   * for the peer address of the latest connect line (first in log order
   * among equal timestamps).
   */
  lemma AddrFollowsLatestConnect(id: string, log: Log, i: int, j: int)
    requires LatestMatchAt(log, ConnectedPattern(id), i)
    requires LatestMatchAt(log, HardwarePattern(log[i].peer), j)
    ensures ConnectionInfoOf(id, log).addr == Some(log[j].mac)
  {
    LatestConnectAddr(id, log, i);
    LatestHardwareAddr(log, log[i].peer, j);
  }

  /** Without a connect line there is no address. */
  lemma AddrAbsentWithoutConnect(id: string, log: Log)
    requires forall i :: 0 <= i < |log| ==> !(log[i].PeerConnected? && log[i].id == id)
    ensures ConnectionInfoOf(id, log).addr == None
  {
    var cp := ConnectedPattern(id);
    if |Matches(log, cp)| > 0 {
      MatchesFromLog(log, cp, 0);
    }
    ConnectedOnlyOfResults(log, id);
  }

  /** Without a hardware line for the latest peer address there is no address either. */
  lemma AddrAbsentWithoutHardware(id: string, log: Log, i: int)
    requires LatestMatchAt(log, ConnectedPattern(id), i)
    requires forall j :: 0 <= j < |log| ==> !(log[j].HardwareAddress? && log[j].peer == log[i].peer)
    ensures ConnectionInfoOf(id, log).addr == None
  {
    var hp := HardwarePattern(log[i].peer);
    LatestConnectAddr(id, log, i);
    if |Matches(log, hp)| > 0 {
      MatchesFromLog(log, hp, 0);
    }
  }
}
