/**
 * The invite registries: lookups and removals over the in-memory lists of
 * invite entries, and the `splice` that ends a guest certificate's grace
 * period.
 */
module Invites {
  import opened Options
  import opened Records

  /**
   * Reading a string-valued property of an invite entry, as JavaScript does:
   * a property the entry does not have reads as `undefined`. The boolean
   * `isAdmin` is never looked up by `find` or `filter`, so it is not one of
   * the names here.
   */
  function Property(entry: InviteEntry, name: string): Option<string> {
    if name == "id" then Some(entry.id)
    else if name == "username" then entry.username
    else if name == "certificateId" then entry.certificateId
    else None
  }

  /**
   * `entries.find(value => value[name] === wanted)`, given as the index of the
   * entry found, or -1 when there is none.
   */
  function Find(entries: seq<InviteEntry>, name: string, wanted: Option<string>): (k: int)
    ensures -1 <= k < |entries|
    ensures k == -1 <==> forall j :: 0 <= j < |entries| ==> Property(entries[j], name) != wanted
    ensures k >= 0 ==> Property(entries[k], name) == wanted
    ensures k >= 0 ==> forall j :: 0 <= j < k ==> Property(entries[j], name) != wanted
    decreases |entries|
  {
    if entries == [] then -1
    else if Property(entries[0], name) == wanted then 0
    else
      var k := Find(entries[1..], name, wanted);
      if k == -1 then -1 else k + 1
  }

  /** `entries.filter(value => value[name] !== unwanted)` */
  function Without(entries: seq<InviteEntry>, name: string, unwanted: Option<string>): (r: seq<InviteEntry>)
    ensures |r| <= |entries|
    decreases |entries|
  {
    if entries == [] then []
    else (if Property(entries[0], name) != unwanted then [entries[0]] else []) + Without(entries[1..], name, unwanted)
  }

  /**
   * Every entry whose property equals `unwanted` goes; every other entry
   * stays, as often as it occurred.
   */
  lemma {:induction false} WithoutCounts(entries: seq<InviteEntry>, name: string, unwanted: Option<string>, e: InviteEntry)
    ensures multiset(Without(entries, name, unwanted))[e] == if Property(e, name) != unwanted then multiset(entries)[e] else 0
    decreases |entries|
  {
    if entries != [] {
      WithoutCounts(entries[1..], name, unwanted, e);
      assert entries == [entries[0]] + entries[1..];
    }
  }

  lemma WithoutMembers(entries: seq<InviteEntry>, name: string, unwanted: Option<string>, e: InviteEntry)
    ensures e in Without(entries, name, unwanted) <==> e in entries && Property(e, name) != unwanted
  {
    WithoutCounts(entries, name, unwanted, e);
    assert e in entries <==> multiset(entries)[e] > 0;
    assert e in Without(entries, name, unwanted) <==> multiset(Without(entries, name, unwanted))[e] > 0;
  }

  /** When no entry matches, the filter keeps the list as it is. */
  lemma {:induction false} WithoutNoMatch(entries: seq<InviteEntry>, name: string, unwanted: Option<string>)
    requires forall j :: 0 <= j < |entries| ==> Property(entries[j], name) != unwanted
    ensures Without(entries, name, unwanted) == entries
    decreases |entries|
  {
    if entries != [] {
      WithoutNoMatch(entries[1..], name, unwanted);
      assert entries == [entries[0]] + entries[1..];
    }
  }

  /** Appending an entry for a key nobody had makes that entry the one `Find` returns. */
  lemma FindAfterAppend(entries: seq<InviteEntry>, e: InviteEntry, name: string)
    requires Find(entries, name, Property(e, name)) == -1
    ensures Find(entries + [e], name, Property(e, name)) == |entries|
  {
    var s := entries + [e];
    assert forall j :: 0 <= j < |entries| ==> s[j] == entries[j];
    assert s[|entries|] == e;
  }

  /** Appending an entry does not change which entry an earlier hit finds. */
  lemma FindIgnoresAppended(entries: seq<InviteEntry>, e: InviteEntry, name: string, wanted: Option<string>)
    requires Find(entries, name, wanted) >= 0
    ensures Find(entries + [e], name, wanted) == Find(entries, name, wanted)
  {
    var s := entries + [e];
    assert forall j :: 0 <= j < |entries| ==> s[j] == entries[j];
  }

  /**
   * The timed removal of an entry just appended under an id no other entry
   * has restores the list as it was before the append.
   */
  lemma {:induction false} ExpireUndoesAppend(entries: seq<InviteEntry>, e: InviteEntry)
    requires forall j :: 0 <= j < |entries| ==> entries[j].id != e.id
    ensures Without(entries + [e], "id", Some(e.id)) == entries
    decreases |entries|
  {
    if entries == [] {
      assert entries + [e] == [e];
    } else {
      assert (entries + [e])[1..] == entries[1..] + [e];
      ExpireUndoesAppend(entries[1..], e);
      assert entries == [entries[0]] + entries[1..];
    }
  }

  /**
   * The enrollment filter `value.inviteCode !== inviteCode.id` reads a
   * property no entry has, so it keeps every entry.
   */
  lemma EnrollmentFilterKeepsAll(entries: seq<InviteEntry>, code: string)
    ensures Without(entries, "inviteCode", Some(code)) == entries
  {
    WithoutNoMatch(entries, "inviteCode", Some(code));
  }

  /**
   * `guestInviteCodes.find(item => item.id === code)?.certificateId`: the
   * certificate a guest invite hands out.
   */
  function GuestCertificateOf(entries: seq<InviteEntry>, code: string): (r: Option<string>)
    ensures r.Some? ==> exists k :: 0 <= k < |entries| && entries[k].id == code && entries[k].certificateId == r
    ensures (forall k :: 0 <= k < |entries| ==> entries[k].id != code) ==> r.None?
    ensures forall k :: 0 <= k < |entries| && entries[k].id == code && (forall j :: 0 <= j < k ==> entries[j].id != code) ==>
      r == entries[k].certificateId
  {
    var k := Find(entries, "id", Some(code));
    if k >= 0 then entries[k].certificateId else None
  }

  /** `Array.prototype.indexOf` over the protected ids: the first position of `x`, or -1. */
  function IndexOf(s: seq<Option<string>>, x: Option<string>): (k: int)
    ensures -1 <= k < |s|
    ensures k == -1 <==> x !in s
    ensures k >= 0 ==> s[k] == x && x !in s[..k]
    decreases |s|
  {
    if s == [] then -1
    else if s[0] == x then 0
    else
      var k := IndexOf(s[1..], x);
      if k == -1 then -1 else k + 1
  }

  /**
   * `s.splice(start, 1)`, giving the array that remains. A negative start
   * counts from the end (clamped to 0); a start past the end removes nothing.
   */
  function SpliceOne(s: seq<Option<string>>, start: int): seq<Option<string>> {
    var i := if start < 0 then (if |s| + start < 0 then 0 else |s| + start)
             else (if start < |s| then start else |s|);
    if i < |s| then s[..i] + s[i + 1..] else s
  }

  /** Removing the element at `k` takes one occurrence of it out of the multiset. */
  lemma RemoveAt(s: seq<Option<string>>, k: int)
    requires 0 <= k < |s|
    ensures multiset(s[..k] + s[k + 1..]) == multiset(s) - multiset{s[k]}
  {
    assert s == s[..k] + [s[k]] + s[k + 1..];
    assert multiset(s) == multiset(s[..k]) + multiset{s[k]} + multiset(s[k + 1..]);
  }

  /** Releasing a protected id that is present removes one occurrence of it, and only that. */
  lemma ReleaseRemovesOne(s: seq<Option<string>>, x: Option<string>)
    requires x in s
    ensures multiset(SpliceOne(s, IndexOf(s, x))) == multiset(s) - multiset{x}
    ensures |SpliceOne(s, IndexOf(s, x))| == |s| - 1
  {
    var k := IndexOf(s, x);
    assert SpliceOne(s, k) == s[..k] + s[k + 1..];
    RemoveAt(s, k);
  }

  /**
   * `splice(indexOf(x), 1)` for an `x` that is not present is `splice(-1, 1)`,
   * which removes the last element instead.
   */
  lemma ReleaseOfAbsentDropsLast(s: seq<Option<string>>, x: Option<string>)
    requires x !in s
    ensures SpliceOne(s, IndexOf(s, x)) == if s == [] then [] else s[..|s| - 1]
  {
  }
}
