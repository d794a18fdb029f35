/**
 Declarative descriptions of the three ways the scrapers consume a sequence of
 lines. Each line either "hits" (a rule yields a value for it) or not, and the
 scraper keeps:
 - the value of the FIRST hit (a `for` loop that returns on its first match),
 - the value of the LAST hit (a loop that assigns a dictionary key on every
   match, so later matches overwrite earlier ones), or
 - the values of ALL hits, in order.
 The operations in the other modules are written the way the source code runs;
 their contracts say which of these descriptions they meet.
 */
module Scan {
  import opened Outcomes

  /** `v` is what `hit` yields on the first element it fires on, or None when
      it fires on none. */
  ghost predicate FirstHit<A, T>(xs: seq<A>, hit: A -> Option<T>, v: Option<T>) {
    match v
    case None => forall k :: 0 <= k < |xs| ==> hit(xs[k]).None?
    case Some(_) =>
      exists k :: 0 <= k < |xs| && hit(xs[k]) == v && forall j :: 0 <= j < k ==> hit(xs[j]).None?
  }

  /** `v` is what `hit` yields on the last element it fires on, or None when
      it fires on none. */
  ghost predicate LastHit<A, T>(xs: seq<A>, hit: A -> Option<T>, v: Option<T>) {
    match v
    case None => forall k :: 0 <= k < |xs| ==> hit(xs[k]).None?
    case Some(_) =>
      exists k :: 0 <= k < |xs| && hit(xs[k]) == v && forall j :: k < j < |xs| ==> hit(xs[j]).None?
  }

  /** The values `hit` yields, element by element, skipping the misses. */
  function Hits<A, T>(xs: seq<A>, hit: A -> Option<T>): (r: seq<T>)
    ensures |r| <= |xs|
    ensures forall k :: 0 <= k < |xs| && hit(xs[k]).Some? ==> hit(xs[k]).value in r
    decreases |xs|
  {
    if |xs| == 0 then []
    else
      var rest := Hits(xs[1..], hit);
      assert forall k :: 1 <= k < |xs| ==> xs[k] == xs[1..][k - 1];
      match hit(xs[0])
      case Some(v) => [v] + rest
      case None => rest
  }

  /** Each value in `Hits` is yielded by some element. */
  lemma {:induction false} HitsCome<A, T>(xs: seq<A>, hit: A -> Option<T>, v: T)
    requires v in Hits(xs, hit)
    ensures exists k :: 0 <= k < |xs| && hit(xs[k]) == Some(v)
    decreases |xs|
  {
    var rest := Hits(xs[1..], hit);
    if hit(xs[0]) == Some(v) {
    } else {
      assert v in rest;
      HitsCome(xs[1..], hit, v);
      var k :| 0 <= k < |xs[1..]| && hit(xs[1..][k]) == Some(v);
      assert hit(xs[k + 1]) == Some(v);
    }
  }

  /** A description picks out a single value: two values that both describe
      the first hit are equal. */
  lemma FirstHitUnique<A, T>(xs: seq<A>, hit: A -> Option<T>, v: Option<T>, w: Option<T>)
    requires FirstHit(xs, hit, v) && FirstHit(xs, hit, w)
    ensures v == w
  {
    if v.Some? && w.Some? {
      var i :| 0 <= i < |xs| && hit(xs[i]) == v && forall j :: 0 <= j < i ==> hit(xs[j]).None?;
      var k :| 0 <= k < |xs| && hit(xs[k]) == w && forall j :: 0 <= j < k ==> hit(xs[j]).None?;
      assert !(i < k) && !(k < i);
    }
  }

  /** The same for the last hit. */
  lemma LastHitUnique<A, T>(xs: seq<A>, hit: A -> Option<T>, v: Option<T>, w: Option<T>)
    requires LastHit(xs, hit, v) && LastHit(xs, hit, w)
    ensures v == w
  {
    if v.Some? && w.Some? {
      var i :| 0 <= i < |xs| && hit(xs[i]) == v && forall j :: i < j < |xs| ==> hit(xs[j]).None?;
      var k :| 0 <= k < |xs| && hit(xs[k]) == w && forall j :: k < j < |xs| ==> hit(xs[j]).None?;
      assert !(i < k) && !(k < i);
    }
  }

  /** If the first element hits, its value is the first hit. */
  lemma FirstHitHere<A, T>(xs: seq<A>, hit: A -> Option<T>)
    requires |xs| > 0 && hit(xs[0]).Some?
    ensures FirstHit(xs, hit, hit(xs[0]))
  {
  }

  /** If the first element misses, the first hit is the first hit of the rest. */
  lemma FirstHitLater<A, T>(xs: seq<A>, hit: A -> Option<T>, v: Option<T>)
    requires |xs| > 0 && hit(xs[0]).None? && FirstHit(xs[1..], hit, v)
    ensures FirstHit(xs, hit, v)
  {
    var ys := xs[1..];
    assert forall k :: 1 <= k < |xs| ==> xs[k] == ys[k - 1];
    if v.Some? {
      var k :| 0 <= k < |ys| && hit(ys[k]) == v && forall j :: 0 <= j < k ==> hit(ys[j]).None?;
      assert hit(xs[k + 1]) == v;
      assert forall j :: 0 <= j < k + 1 ==> hit(xs[j]).None? by {
        forall j | 0 <= j < k + 1 ensures hit(xs[j]).None? {
          if j > 0 { assert hit(ys[j - 1]).None?; }
        }
      }
    } else {
      assert forall k :: 0 <= k < |ys| ==> hit(ys[k]).None?;
    }
  }

  /** If the last element hits, its value is the last hit. */
  lemma LastHitHere<A, T>(xs: seq<A>, hit: A -> Option<T>)
    requires |xs| > 0 && hit(xs[|xs| - 1]).Some?
    ensures LastHit(xs, hit, hit(xs[|xs| - 1]))
  {
  }

  /** If the last element misses, the last hit is the last hit of the rest. */
  lemma LastHitEarlier<A, T>(xs: seq<A>, hit: A -> Option<T>, v: Option<T>)
    requires |xs| > 0 && hit(xs[|xs| - 1]).None? && LastHit(xs[..|xs| - 1], hit, v)
    ensures LastHit(xs, hit, v)
  {
    var ys := xs[..|xs| - 1];
    assert forall k :: 0 <= k < |ys| ==> xs[k] == ys[k];
    if v.Some? {
      var k :| 0 <= k < |ys| && hit(ys[k]) == v && forall j :: k < j < |ys| ==> hit(ys[j]).None?;
      assert hit(xs[k]) == v;
      assert forall j :: k < j < |xs| ==> hit(xs[j]).None? by {
        forall j | k < j < |xs| ensures hit(xs[j]).None? {
          if j < |ys| { assert hit(ys[j]).None?; }
        }
      }
    } else {
      assert forall k :: 0 <= k < |ys| ==> hit(ys[k]).None?;
    }
  }

  /** Extending the elements by one: the last hit moves to the new element if
      it hits, and stays otherwise. */
  lemma LastHitStep<A, T>(xs: seq<A>, hit: A -> Option<T>, prev: Option<T>, next: Option<T>)
    requires |xs| > 0 && LastHit(xs[..|xs| - 1], hit, prev)
    requires next == (if hit(xs[|xs| - 1]).Some? then hit(xs[|xs| - 1]) else prev)
    ensures LastHit(xs, hit, next)
  {
    if hit(xs[|xs| - 1]).Some? {
      LastHitHere(xs, hit);
    } else {
      LastHitEarlier(xs, hit, prev);
    }
  }
}
