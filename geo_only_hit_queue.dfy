/**
 * The bounded priority queue of geo-only hits. Its capacity is fixed when it
 * is created, and its order is `lessThan(a, b) <==> a.score > b.score`, so the
 * queue's least element, the one at its top, is a hit with the highest score.
 *
 * The queue inherits its storage and its add, top, pop and
 * insert-with-overflow operations from Lucene's PriorityQueue, whose source is
 * not part of this model. Here the storage is a sequence whose first element
 * is always a least one, and each inherited operation is given the contract
 * that Lucene documents for it.
 */
module GeoOnlyHitQueues {
  import opened Wrappers

  /** A hit: a document and its score. */
  datatype GeoOnlyHit = GeoOnlyHit(doc: int, score: real)

  /** The queue's comparator: a hit is "less" than another when its score is higher. */
  function LessThan(hitA: GeoOnlyHit, hitB: GeoOnlyHit): (r: bool)
    ensures hitA.score == hitB.score ==> !r
  {
    hitA.score > hitB.score
  }

  /** `least` is in `s` and nothing in `s` is less than it. */
  ghost predicate IsLeast(least: GeoOnlyHit, s: seq<GeoOnlyHit>)
  {
    least in s && forall x :: x in s ==> !LessThan(x, least)
  }

  lemma LessThanIrreflexive(hit: GeoOnlyHit)
    ensures !LessThan(hit, hit)
  {
  }

  lemma LessThanAsymmetric(hitA: GeoOnlyHit, hitB: GeoOnlyHit)
    ensures LessThan(hitA, hitB) ==> !LessThan(hitB, hitA)
  {
  }

  lemma LessThanTransitive(hitA: GeoOnlyHit, hitB: GeoOnlyHit, hitC: GeoOnlyHit)
    ensures LessThan(hitA, hitB) && LessThan(hitB, hitC) ==> LessThan(hitA, hitC)
  {
  }

  /** Hits with equal scores are incomparable, whatever their documents. */
  lemma EqualScoresIncomparable(hitA: GeoOnlyHit, hitB: GeoOnlyHit)
    requires hitA.score == hitB.score
    ensures !LessThan(hitA, hitB) && !LessThan(hitB, hitA)
  {
  }

  /** A least element under LessThan has the greatest score of the collection. */
  lemma LeastHasGreatestScore(least: GeoOnlyHit, s: seq<GeoOnlyHit>)
    requires IsLeast(least, s)
    ensures forall x :: x in s ==> x.score <= least.score
  {
  }

  /**
   * Every non-empty set of hits has a LessThan-least element: the claim that
   * a non-empty queue always has a top is justified by this, independently of
   * how the queue below keeps its least element first.
   */
  lemma {:induction false} LeastExists(s: set<GeoOnlyHit>)
    requires s != {}
    ensures exists least :: least in s && forall x :: x in s ==> !LessThan(x, least)
  {
    var h :| h in s;
    if s != {h} {
      LeastExists(s - {h});
      var m :| m in s - {h} && forall x :: x in s - {h} ==> !LessThan(x, m);
      if LessThan(h, m) {
        forall x | x in s ensures !LessThan(x, h) {
          if x != h { assert x in s - {h}; }
        }
      } else {
        assert forall x :: x in s ==> !LessThan(x, m);
      }
    } else {
      assert forall x :: x in s ==> !LessThan(x, h);
    }
  }

  /** Finds a least hit of a non-empty sequence, to be moved to the front. */
  method LeastIndex(s: seq<GeoOnlyHit>) returns (k: nat)
    requires |s| > 0
    ensures k < |s|
    ensures forall j :: 0 <= j < |s| ==> !LessThan(s[j], s[k])
  {
    k := 0;
    var i := 1;
    while i < |s|
      invariant 1 <= i <= |s|
      invariant k < i
      invariant forall j :: 0 <= j < i ==> !LessThan(s[j], s[k])
    {
      if LessThan(s[i], s[k]) {
        k := i;
      }
      i := i + 1;
    }
  }

  /** Puts `s[k]` first and keeps the others in order. */
  function MoveToFront(s: seq<GeoOnlyHit>, k: nat): (r: seq<GeoOnlyHit>)
    requires k < |s|
    ensures |r| == |s| && r[0] == s[k]
    ensures multiset(r) == multiset(s)
  {
    assert s == s[..k] + [s[k]] + s[k + 1..];
    [s[k]] + s[..k] + s[k + 1..]
  }

  class GeoOnlyHitQueue {
    /** The capacity given to `initialize`. */
    const maxSize: nat
    /** The hits held, a least one first. */
    var held: seq<GeoOnlyHit>

    ghost predicate Valid()
      reads this
    {
      && |held| <= maxSize
      && (held != [] ==> IsLeast(held[0], held))
    }

    /** The hits held, as a collection. */
    ghost function Contents(): multiset<GeoOnlyHit>
      reads this
    {
      multiset(held)
    }

    /** The hit at the top of a non-empty queue, the one top and pop return. */
    ghost function TopHit(): GeoOnlyHit
      reads this
      requires held != []
    {
      held[0]
    }

    function Size(): (n: nat)
      reads this
      ensures n == |Contents()|
    {
      |held|
    }

    /** A queue that can hold `size` hits, empty. */
    constructor (size: nat)
      ensures Valid()
      ensures maxSize == size && Contents() == multiset{}
    {
      maxSize := size;
      held := [];
    }

    /**
     * The top hit, a least one and so one with the highest score, or None
     * when the queue is empty. Reads only.
     */
    method Top() returns (r: Option<GeoOnlyHit>)
      requires Valid()
      ensures r.None? <==> Contents() == multiset{}
      ensures r.Some? ==> r.value == TopHit()
      ensures r.Some? ==> r.value in Contents()
      ensures r.Some? ==> forall x :: x in Contents() ==> !LessThan(x, r.value)
      ensures r.Some? ==> forall x :: x in Contents() ==> x.score <= r.value.score
    {
      if held == [] {
        r := None;
      } else {
        r := Some(held[0]);
        LeastHasGreatestScore(held[0], held);
      }
    }

    /**
     * Adds a hit and returns the new top. Adding to a full queue fails (in
     * Lucene with an index-out-of-bounds failure); the queue is then
     * unchanged and no top is returned.
     */
    method Add(hit: GeoOnlyHit) returns (ok: bool, top: Option<GeoOnlyHit>)
      requires Valid()
      modifies this
      ensures Valid()
      ensures ok <==> old(Size()) < maxSize
      ensures Contents() == if ok then old(Contents()) + multiset{hit} else old(Contents())
      ensures ok ==> top == Some(TopHit())
      ensures ok ==> forall x :: x in Contents() ==> x.score <= top.value.score
      ensures !ok ==> top.None?
    {
      ok := |held| < maxSize;
      if ok {
        if held == [] || LessThan(hit, held[0]) {
          held := [hit] + held;
        } else {
          held := held + [hit];
        }
        top := Some(held[0]);
        LeastHasGreatestScore(held[0], held);
      } else {
        top := None;
      }
    }

    /** Removes and returns the top hit (a highest-scoring one), or None when empty. */
    method Pop() returns (r: Option<GeoOnlyHit>)
      requires Valid()
      modifies this
      ensures Valid()
      ensures r.None? <==> old(Contents()) == multiset{}
      ensures r.None? ==> Contents() == old(Contents())
      ensures r.Some? ==> r.value == old(TopHit())
      ensures r.Some? ==> r.value in old(Contents()) && Contents() == old(Contents()) - multiset{r.value}
      ensures r.Some? ==> forall x :: x in old(Contents()) ==> x.score <= r.value.score
    {
      if held == [] {
        r := None;
      } else {
        r := Some(held[0]);
        LeastHasGreatestScore(held[0], held);
        var rest := held[1..];
        assert held == [held[0]] + rest;
        if rest != [] {
          var k := LeastIndex(rest);
          rest := MoveToFront(rest, k);
        }
        held := rest;
      }
    }

    /**
     * Lucene's insert-with-overflow. Below capacity the hit is added and None
     * returned. At capacity, when the hit is not less than the top (its score
     * is not higher), it replaces the top and the old top is returned;
     * otherwise the hit itself is returned and the queue is unchanged. Either
     * way, what is returned scores at least as high as every hit kept, so a
     * full queue keeps the lowest scores it has seen.
     */
    method InsertWithOverflow(hit: GeoOnlyHit) returns (r: Option<GeoOnlyHit>)
      requires Valid()
      modifies this
      ensures Valid()
      ensures r.None? <==> old(Size()) < maxSize
      ensures r.None? ==> Contents() == old(Contents()) + multiset{hit}
      ensures old(Size()) == maxSize && maxSize > 0 && hit.score <= old(TopHit()).score ==>
        && r == Some(old(TopHit()))
        && Contents() == old(Contents()) - multiset{old(TopHit())} + multiset{hit}
      ensures old(Size()) == maxSize && (maxSize == 0 || hit.score > old(TopHit()).score) ==>
        r == Some(hit) && Contents() == old(Contents())
      ensures r.Some? ==> forall x :: x in Contents() ==> x.score <= r.value.score
    {
      if |held| < maxSize {
        var ok, top := Add(hit);
        r := None;
      } else if |held| > 0 && !LessThan(hit, held[0]) {
        r := Some(held[0]);
        LeastHasGreatestScore(held[0], held);
        var replaced := [hit] + held[1..];
        assert held == [held[0]] + held[1..];
        var k := LeastIndex(replaced);
        held := MoveToFront(replaced, k);
      } else {
        r := Some(hit);
        if held != [] {
          LeastHasGreatestScore(held[0], held);
        }
      }
    }
  }

  /** Inserting scores 1, 2 and 0 into a queue of capacity 1 gives back 2, then 1, and keeps 0. */
  method OverflowKeepsLowestScores()
  {
    var q := new GeoOnlyHitQueue(1);
    var r := q.InsertWithOverflow(GeoOnlyHit(0, 1.0));
    assert r.None?;
    r := q.InsertWithOverflow(GeoOnlyHit(1, 2.0));
    assert r == Some(GeoOnlyHit(1, 2.0));
    r := q.InsertWithOverflow(GeoOnlyHit(2, 0.0));
    assert r == Some(GeoOnlyHit(0, 1.0));
    assert q.Contents() == multiset{GeoOnlyHit(2, 0.0)};
  }

  /** Top and then Pop return the same hit. */
  method PopReturnsTop(q: GeoOnlyHitQueue)
    requires q.Valid()
    modifies q
  {
    var t := q.Top();
    var p := q.Pop();
    assert t == p;
  }
}
