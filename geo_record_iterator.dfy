/**
 * The range-scan contract of a geo record store: obtaining an iterator on
 * [minValue, maxValue] yields the stored records that lie in that closed
 * interval under the store's record comparator, or ends in an I/O failure.
 *
 * The records are of any type R, compared by a Java-style comparator
 * (negative, zero, positive). Reading the underlying storage is a parameter:
 * the records it yields, or the I/O failure it ends in.
 */
module GeoRecordIterators {
  import opened Wrappers

  /** The failure of reading the underlying storage. */
  datatype IOException = IOException

  function Sign(n: int): int
  {
    if n < 0 then -1 else if n > 0 then 1 else 0
  }

  /** The contract of a Java comparator: antisymmetric in sign and transitive. */
  ghost predicate IsComparator<R(!new)>(compare: (R, R) -> int)
  {
    && (forall x, y :: Sign(compare(x, y)) == -Sign(compare(y, x)))
    && Transitive(compare)
  }

  /** "Not above" is transitive under `compare`. */
  ghost predicate Transitive<R(!new)>(compare: (R, R) -> int)
  {
    forall x, y, z :: compare(x, y) <= 0 && compare(y, z) <= 0 ==> compare(x, z) <= 0
  }

  /** `record` lies in the closed interval [minValue, maxValue]. */
  predicate InInterval<R>(compare: (R, R) -> int, minValue: R, maxValue: R, record: R)
  {
    compare(minValue, record) <= 0 && compare(record, maxValue) <= 0
  }

  /** `s` is in ascending order under `compare`. */
  ghost predicate Sorted<R>(compare: (R, R) -> int, s: seq<R>)
  {
    forall i, j :: 0 <= i < j < |s| ==> compare(s[i], s[j]) <= 0
  }

  /** The stored records in [minValue, maxValue], in stored order. */
  function Matching<R(==,!new)>(records: seq<R>, compare: (R, R) -> int, minValue: R, maxValue: R): (r: seq<R>)
    ensures |r| <= |records|
    ensures forall x :: x in r <==> x in records && InInterval(compare, minValue, maxValue, x)
  {
    if records == [] then []
    else
      var rest := Matching(records[1..], compare, minValue, maxValue);
      assert records == [records[0]] + records[1..];
      if InInterval(compare, minValue, maxValue, records[0]) then [records[0]] + rest else rest
  }

  /**
   * `getIterator(minValue, maxValue)`: the matching records of the store, or
   * the I/O failure its storage ended in.
   */
  function GetIterator<R(==,!new)>(
    stored: Result<seq<R>, IOException>, compare: (R, R) -> int, minValue: R, maxValue: R
  ): (r: Result<seq<R>, IOException>)
    ensures r.Failure? <==> stored.Failure?
    ensures r.Success? ==> forall x :: x in r.value <==> x in stored.value && InInterval(compare, minValue, maxValue, x)
    ensures r.Success? ==> |r.value| <= |stored.value|
    ensures r.Success? ==> (forall x :: multiset(r.value)[x] ==
                              if InInterval(compare, minValue, maxValue, x) then multiset(stored.value)[x] else 0)
    ensures r.Success? ==> IsSubsequence(r.value, stored.value)
  {
    match stored
    case Failure(e) => Failure(e)
    case Success(records) =>
      var scan := Matching(records, compare, minValue, maxValue);
      assert (forall x :: multiset(scan)[x] ==
                if InInterval(compare, minValue, maxValue, x) then multiset(records)[x] else 0) by {
        forall x ensures multiset(scan)[x]
          == if InInterval(compare, minValue, maxValue, x) then multiset(records)[x] else 0 {
          MatchingCounts(records, compare, minValue, maxValue, x);
        }
      }
      MatchingInStoredOrder(records, compare, minValue, maxValue);
      Success(scan)
  }

  /** Each record in the interval is produced as often as it is stored; no other record is produced. */
  lemma {:induction false} MatchingCounts<R(!new)>(records: seq<R>, compare: (R, R) -> int, minValue: R, maxValue: R, x: R)
    ensures multiset(Matching(records, compare, minValue, maxValue))[x]
      == if InInterval(compare, minValue, maxValue, x) then multiset(records)[x] else 0
  {
    if records != [] {
      assert records == [records[0]] + records[1..];
      MatchingCounts(records[1..], compare, minValue, maxValue, x);
    }
  }

  /** Both ends are included: a stored record equal to either bound is produced. */
  lemma BoundsIncluded<R(!new)>(records: seq<R>, compare: (R, R) -> int, minValue: R, maxValue: R)
    requires IsComparator(compare)
    requires compare(minValue, maxValue) <= 0
    ensures minValue in records ==> minValue in Matching(records, compare, minValue, maxValue)
    ensures maxValue in records ==> maxValue in Matching(records, compare, minValue, maxValue)
  {
  }

  /** `s` is `t` with some elements left out, the rest kept in order. */
  ghost predicate IsSubsequence<R>(s: seq<R>, t: seq<R>)
    decreases |t|
  {
    if s == [] then true
    else if t == [] then false
    else (s[0] == t[0] && IsSubsequence(s[1..], t[1..])) || IsSubsequence(s, t[1..])
  }

  /** The records produced are a subsequence of the store, in stored order, whatever the store. */
  lemma {:induction false} MatchingInStoredOrder<R(!new)>(records: seq<R>, compare: (R, R) -> int, minValue: R, maxValue: R)
    ensures IsSubsequence(Matching(records, compare, minValue, maxValue), records)
  {
    if records != [] {
      var rest := Matching(records[1..], compare, minValue, maxValue);
      MatchingInStoredOrder(records[1..], compare, minValue, maxValue);
      if InInterval(compare, minValue, maxValue, records[0]) {
        var r := [records[0]] + rest;
        assert r[0] == records[0] && r[1..] == rest;
      } else if rest != [] {
        assert IsSubsequence(rest, records[1..]);
      }
    }
  }

  /** A sorted store yields a sorted scan. */
  lemma {:induction false} MatchingKeepsOrder<R(!new)>(records: seq<R>, compare: (R, R) -> int, minValue: R, maxValue: R)
    requires Sorted(compare, records)
    ensures Sorted(compare, Matching(records, compare, minValue, maxValue))
  {
    if records != [] {
      var rest := Matching(records[1..], compare, minValue, maxValue);
      assert Sorted(compare, records[1..]) by {
        forall i, j | 0 <= i < j < |records[1..]| ensures compare(records[1..][i], records[1..][j]) <= 0 {
          assert records[1..][i] == records[i + 1] && records[1..][j] == records[j + 1];
        }
      }
      MatchingKeepsOrder(records[1..], compare, minValue, maxValue);
      if InInterval(compare, minValue, maxValue, records[0]) {
        var r := [records[0]] + rest;
        forall i, j | 0 <= i < j < |r| ensures compare(r[i], r[j]) <= 0 {
          if i == 0 {
            assert r[j] in rest;
            var k :| 0 <= k < |records[1..]| && records[1..][k] == r[j];
            assert records[k + 1] == r[j];
          } else {
            assert r[i] == rest[i - 1] && r[j] == rest[j - 1];
          }
        }
      }
    }
  }

  /** When the records satisfying the interval are exactly those at [lo, hi), the scan is that slice. */
  lemma {:induction false} MatchingIsSlice<R(!new)>(
    records: seq<R>, compare: (R, R) -> int, minValue: R, maxValue: R, lo: nat, hi: nat)
    requires lo <= hi <= |records|
    requires forall i :: 0 <= i < |records| ==>
      (InInterval(compare, minValue, maxValue, records[i]) <==> lo <= i < hi)
    ensures Matching(records, compare, minValue, maxValue) == records[lo..hi]
  {
    if records != [] {
      var tail := records[1..];
      var lo', hi' := if lo == 0 then 0 else lo - 1, if hi == 0 then 0 else hi - 1;
      assert lo' <= hi' <= |tail|;
      forall i | 0 <= i < |tail|
        ensures InInterval(compare, minValue, maxValue, tail[i]) <==> lo' <= i < hi'
      {
        assert tail[i] == records[i + 1];
      }
      MatchingIsSlice(tail, compare, minValue, maxValue, lo', hi');
      if lo == 0 && hi > 0 {
        assert InInterval(compare, minValue, maxValue, records[0]);
        assert records[lo..hi] == [records[0]] + tail[lo'..hi'];
      } else {
        assert !InInterval(compare, minValue, maxValue, records[0]);
        assert records[lo..hi] == tail[lo'..hi'];
      }
    }
  }

  /** The first position whose record is not below `minValue`, or |records|. */
  function LowerBound<R>(records: seq<R>, compare: (R, R) -> int, minValue: R): (lo: nat)
    ensures lo <= |records|
    ensures forall i :: 0 <= i < lo ==> compare(minValue, records[i]) > 0
    ensures lo < |records| ==> compare(minValue, records[lo]) <= 0
  {
    if records == [] || compare(minValue, records[0]) <= 0 then 0
    else 1 + LowerBound(records[1..], compare, minValue)
  }

  /** The first position whose record is above `maxValue`, or |records|. */
  function UpperBound<R>(records: seq<R>, compare: (R, R) -> int, maxValue: R): (hi: nat)
    ensures hi <= |records|
    ensures forall i :: 0 <= i < hi ==> compare(records[i], maxValue) <= 0
    ensures hi < |records| ==> compare(records[hi], maxValue) > 0
  {
    if records == [] || compare(records[0], maxValue) > 0 then 0
    else 1 + UpperBound(records[1..], compare, maxValue)
  }

  /** In a sorted store, a record is not below minValue exactly from the lower bound on. */
  lemma SortedLowerBound<R(!new)>(records: seq<R>, compare: (R, R) -> int, minValue: R, i: nat)
    requires Transitive(compare)
    requires Sorted(compare, records)
    requires i < |records|
    ensures compare(minValue, records[i]) <= 0 <==> LowerBound(records, compare, minValue) <= i
  {
  }

  /** In a sorted store, a record is not above maxValue exactly before the upper bound. */
  lemma SortedUpperBound<R(!new)>(records: seq<R>, compare: (R, R) -> int, maxValue: R, i: nat)
    requires Transitive(compare)
    requires Sorted(compare, records)
    requires i < |records|
    ensures compare(records[i], maxValue) <= 0 <==> i < UpperBound(records, compare, maxValue)
  {
  }

  /**
   * On a store sorted by its comparator, the scan of [minValue, maxValue] is
   * one contiguous run of the store: from the lower bound of minValue up to,
   * not including, the first record above maxValue.
   */
  lemma SortedScanIsContiguous<R(!new)>(records: seq<R>, compare: (R, R) -> int, minValue: R, maxValue: R)
    requires Transitive(compare)
    requires Sorted(compare, records)
    ensures
      var lo := LowerBound(records, compare, minValue);
      var hi := UpperBound(records, compare, maxValue);
      Matching(records, compare, minValue, maxValue) == if lo <= hi then records[lo..hi] else []
  {
    var lo := LowerBound(records, compare, minValue);
    var hi := UpperBound(records, compare, maxValue);
    var lo' := if lo <= hi then lo else hi;
    forall i | 0 <= i < |records|
      ensures InInterval(compare, minValue, maxValue, records[i]) <==> lo' <= i < hi
    {
      SortedLowerBound(records, compare, minValue, i);
      SortedUpperBound(records, compare, maxValue, i);
    }
    MatchingIsSlice(records, compare, minValue, maxValue, lo', hi);
  }
}
