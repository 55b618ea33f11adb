/** Events that keep a distance from each other are few in any window of time. */
module RateBound {

  /** The numbers below `n` at which something happens. */
  function Hits(hit: nat -> bool, n: nat): seq<nat> {
    if n == 0 then []
    else if hit(n - 1) then Hits(hit, n - 1) + [n - 1]
    else Hits(hit, n - 1)
  }

  lemma {:induction false} HitsMeaning(hit: nat -> bool, n: nat)
    ensures forall i: nat :: i in Hits(hit, n) <==> i < n && hit(i)
    ensures forall k, l :: 0 <= k < l < |Hits(hit, n)| ==> Hits(hit, n)[k] < Hits(hit, n)[l]
  {
    if n == 0 {
    } else {
      HitsMeaning(hit, n - 1);
      var front := Hits(hit, n - 1);
      assert forall k :: 0 <= k < |front| ==> front[k] in front;
    }
  }

  lemma {:induction false} GapsAddUp(times: seq<int>, gap: int)
    requires times != [] && gap > 0
    requires forall k :: 0 <= k < |times| - 1 ==> times[k + 1] - times[k] > gap
    ensures times[|times| - 1] - times[0] >= (|times| - 1) * gap
  {
    if |times| == 1 {
    } else {
      GapsAddUp(times[..|times| - 1], gap);
      var n := |times| - 2;
      assert times[n + 1] - times[n] > gap;
      assert (n + 1) * gap == n * gap + gap;
    }
  }

  lemma ProductMonotone(a: int, b: int, gap: int)
    requires a <= b && gap > 0
    ensures a * gap <= b * gap
  {
  }

  lemma QuotientBound(k: nat, gap: int, d: int)
    requires gap > 0 && k * gap <= d
    ensures k <= d / gap
  {
    var q := d / gap;
    assert d < (q + 1) * gap;
    if k > q {
      ProductMonotone(q + 1, k, gap);
    }
  }

  /** More than `gap` apart, at most 1 + d / gap of them fall into a window of length `d`. */
  lemma FewInWindow(hit: nat -> bool, time: nat -> int, n: nat, from: int, d: nat, gap: int)
    requires gap > 0
    requires forall i :: 0 <= i < n && hit(i) ==> from <= time(i) <= from + d
    requires forall i, j :: 0 <= i < j < n && hit(i) && hit(j) ==> time(j) - time(i) > gap
    ensures |Hits(hit, n)| <= 1 + d / gap
  {
    var hits := Hits(hit, n);
    HitsMeaning(hit, n);
    if hits != [] {
      assert forall k :: 0 <= k < |hits| ==> hits[k] in hits;
      var times := seq(|hits|, k requires 0 <= k < |hits| => time(hits[k]));
      GapsAddUp(times, gap);
      QuotientBound(|hits| - 1, gap, d);
    }
  }
}
