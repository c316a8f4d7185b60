/**
 * The certificate ledger's helpers: lists of distinct ids, and the loop of
 * `deleteCertificates`, whose `for…in` walks the index keys of the array of
 * found certificates rather than the certificates themselves.
 */
module Ledger {
  import opened Options

  /** No id occurs twice. */
  ghost predicate Distinct(s: seq<string>) {
    forall i, j :: 0 <= i < j < |s| ==> s[i] != s[j]
  }

  lemma {:induction false} DistinctCard(s: seq<string>)
    requires Distinct(s)
    ensures |set x | x in s| == |s|
    decreases |s|
  {
    if s != [] {
      var rest := s[1..];
      DistinctCard(rest);
      assert (set x | x in s) == (set x | x in rest) + {s[0]};
      assert s[0] !in rest by {
        forall k | 0 <= k < |rest| ensures rest[k] != s[0] {
          assert rest[k] == s[k + 1];
        }
      }
    }
  }

  lemma {:induction false} DistinctCount(s: seq<string>, x: string)
    requires Distinct(s)
    ensures multiset(s)[x] == if x in s then 1 else 0
    decreases |s|
  {
    if s != [] {
      var rest := s[1..];
      assert s == [s[0]] + rest;
      DistinctCount(rest, x);
      if x == s[0] {
        forall k | 0 <= k < |rest| ensures rest[k] != x {
          assert rest[k] == s[k + 1];
        }
      }
    }
  }

  /** The decimal digits of `n`. */
  function DecimalString(n: nat): (r: string)
    ensures |r| > 0
    ensures forall i :: 0 <= i < |r| ==> '0' <= r[i] <= '9'
    decreases n
  {
    var digit := ['0' + (n % 10) as char];
    if n < 10 then digit else DecimalString(n / 10) + digit
  }

  /** What `for (let key in a)` binds, in order: the index keys "0", "1", .... */
  function ForInKeys<T>(a: seq<T>): (keys: seq<string>)
    ensures |keys| == |a|
  {
    seq(|a|, i requires 0 <= i < |a| => DecimalString(i))
  }

  /** `key.id` for a string key: a string primitive has no `id` property. */
  function IdOfKey(key: string): Option<string> {
    None
  }

  /**
   * The ids the loop body hands to `deleteCertificateById`: the truthy
   * values of `key.id`, with `idOf` reading that property.
   */
  function RevokeTargets(keys: seq<string>, idOf: string -> Option<string>): (r: seq<string>)
    ensures |r| <= |keys|
    decreases |keys|
  {
    if keys == [] then []
    else
      var head := match idOf(keys[0]) case Some(id) => if id != "" then [id] else [] case None => [];
      head + RevokeTargets(keys[1..], idOf)
  }

  /** Whatever certificates are found, the loop revokes none of them. */
  lemma NothingToRevoke<T>(found: seq<T>)
    ensures RevokeTargets(ForInKeys(found), IdOfKey) == []
  {
    NoTargetsAmongKeys(ForInKeys(found));
  }

  lemma {:induction false} NoTargetsAmongKeys(keys: seq<string>)
    ensures RevokeTargets(keys, IdOfKey) == []
    decreases |keys|
  {
    if keys != [] {
      NoTargetsAmongKeys(keys[1..]);
    }
  }
}
