/**
 * The periodic guest sweep (`checkConnectedGuestCertificates`): which guest
 * certificates it revokes and how many it reports as kept.
 */
module GuestSweep {
  import opened Options
  import opened Records
  import opened ConnectionLog
  import opened Ledger

  /** The ids of the guest certificates: those with no owner. */
  function Guests(certificates: map<string, Certificate>): set<string> {
    set id | id in certificates && certificates[id].username.None?
  }

  /**
   * The status the sweep sees for a certificate: connected in the log, when
   * the log tool succeeded (`None` stands for a failed tool, which yields no
   * results at all).
   */
  predicate ConnectedNow(id: string, log: Option<Log>) {
    log.Some? && ConnectionInfoOf(id, log.value).connected
  }

  /** A guest certificate still in its grace period. */
  predicate Protected(id: string, guestIds: seq<Option<string>>) {
    Some(id) in guestIds
  }

  /** The certificates the sweep revokes: guests neither connected nor protected. */
  function Victims(certificates: map<string, Certificate>, log: Option<Log>, guestIds: seq<Option<string>>): (v: set<string>)
    ensures v <= Guests(certificates)
  {
    set id | id in Guests(certificates) && !ConnectedNow(id, log) && !Protected(id, guestIds)
  }

  /** The guests the sweep spares. */
  function Spared(certificates: map<string, Certificate>, log: Option<Log>, guestIds: seq<Option<string>>): set<string> {
    set id | id in Guests(certificates) && (ConnectedNow(id, log) || Protected(id, guestIds))
  }

  /** `results.filter(x => x.connected).map(x => x.id)` */
  function ConnectedIds(infos: seq<ConnectionInfo>): (r: seq<string>)
    ensures forall id :: id in r <==> exists k :: 0 <= k < |infos| && infos[k].connected && infos[k].id == id
    decreases |infos|
  {
    if infos == [] then []
    else
      var last := infos[|infos| - 1];
      var r := ConnectedIds(infos[..|infos| - 1]);
      assert forall k :: 0 <= k < |infos| - 1 ==> infos[..|infos| - 1][k] == infos[k];
      if last.connected then r + [last.id] else r
  }

  /**
   * `certificates.filter(c => !connected.includes(c.id) && !guestIds.includes(c.id))`,
   * over the ids of the found certificates.
   */
  function Expired(ids: seq<string>, connected: seq<string>, guestIds: seq<Option<string>>): (r: seq<string>)
    ensures forall id :: id in r <==> id in ids && id !in connected && !Protected(id, guestIds)
    ensures Distinct(ids) ==> Distinct(r)
    ensures |r| <= |ids|
    decreases |ids|
  {
    if ids == [] then []
    else
      var rest := Expired(ids[1..], connected, guestIds);
      assert Distinct(ids) ==> ids[0] !in ids[1..] by {
        if Distinct(ids) {
          forall k | 0 <= k < |ids[1..]| ensures ids[1..][k] != ids[0] {
            assert ids[1..][k] == ids[k + 1];
          }
        }
      }
      assert Distinct(ids) ==> Distinct(ids[1..]) by {
        if Distinct(ids) {
          forall i, j | 0 <= i < j < |ids[1..]| ensures ids[1..][i] != ids[1..][j] {
            assert ids[1..][i] == ids[i + 1] && ids[1..][j] == ids[j + 1];
          }
        }
      }
      assert ids == [ids[0]] + ids[1..];
      if ids[0] !in connected && !Protected(ids[0], guestIds) then [ids[0]] + rest else rest
  }

  /** Owned, connected and protected certificates are never revoked. */
  lemma SweepSpares(certificates: map<string, Certificate>, log: Option<Log>, guestIds: seq<Option<string>>, id: string)
    requires id in certificates
    requires certificates[id].username.Some? || ConnectedNow(id, log) || Protected(id, guestIds)
    ensures id !in Victims(certificates, log, guestIds)
  {
  }

  /** Every unprotected guest goes when the log tool fails. */
  lemma FailedToolRevokesUnprotected(certificates: map<string, Certificate>, guestIds: seq<Option<string>>)
    ensures Victims(certificates, None, guestIds) == set id | id in Guests(certificates) && !Protected(id, guestIds)
  {
  }

  /**
   * The victims and the spared guests split the guests, so the count the
   * sweep reports (guests minus victims) is the number of spared guests.
   */
  lemma KeptIsSpared(certificates: map<string, Certificate>, log: Option<Log>, guestIds: seq<Option<string>>)
    ensures Victims(certificates, log, guestIds) * Spared(certificates, log, guestIds) == {}
    ensures Victims(certificates, log, guestIds) + Spared(certificates, log, guestIds) == Guests(certificates)
    ensures |Guests(certificates)| - |Victims(certificates, log, guestIds)| == |Spared(certificates, log, guestIds)|
  {
    var g, v, s := Guests(certificates), Victims(certificates, log, guestIds), Spared(certificates, log, guestIds);
    assert v + s == g;
    assert v * s == {};
    assert |v + s| + |v * s| == |v| + |s|;
  }

  /** A guest kept only by its grace period is revoked by the first sweep after its release, unless connected. */
  lemma ReleasedGuestIsSwept(certificates: map<string, Certificate>, log: Option<Log>, guestIds: seq<Option<string>>, id: string)
    requires id in Guests(certificates) && !ConnectedNow(id, log)
    ensures id in Victims(certificates, log, guestIds) <==> !Protected(id, guestIds)
  {
  }

  /** With no protected ids left, every guest that is not connected is a victim. */
  lemma NothingProtectedAfterRestart(certificates: map<string, Certificate>, log: Option<Log>, id: string)
    requires id in Guests(certificates) && !ConnectedNow(id, log)
    ensures id in Victims(certificates, log, [])
  {
  }

  /** For a found id, the connected ids list it exactly when the log shows it connected. */
  lemma ConnectedIdsFollowLog(log: Option<Log>, ids: seq<string>, infos: seq<ConnectionInfo>, id: string)
    requires log.None? ==> infos == []
    requires log.Some? ==> |infos| == |ids| && forall k :: 0 <= k < |ids| ==> infos[k] == ConnectionInfoOf(ids[k], log.value)
    requires id in ids
    ensures id in ConnectedIds(infos) <==> ConnectedNow(id, log)
  {
    var k :| 0 <= k < |ids| && ids[k] == id;
    if ConnectedNow(id, log) {
      assert infos[k].connected && infos[k].id == id;
    }
  }

  /**
   * The ids `Expired` keeps, given the found guest ids and the statuses
   * reported for them, are exactly the victims.
   */
  lemma ExpiredAreVictims(certificates: map<string, Certificate>, log: Option<Log>, guestIds: seq<Option<string>>,
                          ids: seq<string>, infos: seq<ConnectionInfo>)
    requires forall id :: id in ids <==> id in Guests(certificates)
    requires log.None? ==> infos == []
    requires log.Some? ==> |infos| == |ids| && forall k :: 0 <= k < |ids| ==> infos[k] == ConnectionInfoOf(ids[k], log.value)
    ensures (set x | x in Expired(ids, ConnectedIds(infos), guestIds)) == Victims(certificates, log, guestIds)
  {
    var expired := Expired(ids, ConnectedIds(infos), guestIds);
    var victims := Victims(certificates, log, guestIds);
    forall x ensures x in expired <==> x in victims {
      if x in ids {
        ConnectedIdsFollowLog(log, ids, infos, x);
      }
    }
    assert (set x | x in expired) == victims;
  }
}
