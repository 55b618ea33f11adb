/** The requeue fold of reconcilePropagate, in which 0 also stands for "not set yet". */
module Deadlines {
  import opened GoTime

  /** One turn of the loop, for a target that has an expiry. */
  function Earlier(earliest: Duration, until: Duration): Duration {
    if earliest == 0 || until < earliest then until else earliest
  }

  function Fold(ds: seq<Duration>): Duration {
    if ds == [] then 0 else Earlier(Fold(ds[..|ds| - 1]), ds[|ds| - 1])
  }

  function Min(ds: seq<Duration>): (m: Duration)
    requires ds != []
    ensures m in ds && forall d :: d in ds ==> m <= d
  {
    if |ds| == 1 then ds[0]
    else
      var front, last := Min(ds[..|ds| - 1]), ds[|ds| - 1];
      assert ds == ds[..|ds| - 1] + [last];
      if last < front then last else front
  }

  /** What comes after the last zero. */
  function AfterLastZero(ds: seq<Duration>): (tail: seq<Duration>)
    ensures |tail| <= |ds| && tail == ds[|ds| - |tail|..]
    ensures forall d :: d in tail ==> d != 0
    ensures |tail| < |ds| ==> ds[|ds| - |tail| - 1] == 0
  {
    if ds == [] || ds[|ds| - 1] == 0 then []
    else AfterLastZero(ds[..|ds| - 1]) + [ds[|ds| - 1]]
  }

  predicate NonNegative(ds: seq<Duration>) {
    forall d :: d in ds ==> d >= 0
  }

  lemma MinAppend(ds: seq<Duration>, last: Duration)
    requires ds != []
    ensures Min(ds + [last]) == if last < Min(ds) then last else Min(ds)
  {
  }

  /** A zero deadline is forgotten as soon as a later target has another one. */
  lemma {:induction false} FoldIsMinAfterLastZero(ds: seq<Duration>)
    requires NonNegative(ds)
    ensures Fold(ds) == if AfterLastZero(ds) == [] then 0 else Min(AfterLastZero(ds))
  {
    if ds == [] {
    } else {
      var front, last := ds[..|ds| - 1], ds[|ds| - 1];
      assert forall d :: d in front ==> d in ds;
      FoldIsMinAfterLastZero(front);
      var tail := AfterLastZero(front);
      assert last in ds;
      if tail != [] {
        assert Min(tail) in front;
        MinAppend(tail, last);
      }
    }
  }

  /** So the fold is the minimum exactly when no zero is followed by a positive deadline, that is,
      when there is no zero or the last deadline is one. */
  lemma FoldIsMinExactly(ds: seq<Duration>)
    requires NonNegative(ds) && ds != []
    ensures Fold(ds) == Min(ds) <==> 0 !in ds || ds[|ds| - 1] == 0
  {
    FoldIsMinAfterLastZero(ds);
    var tail := AfterLastZero(ds);
    if |tail| < |ds| {
      assert ds[|ds| - |tail| - 1] in ds;
      if tail != [] {
        assert Min(tail) in ds;
        assert ds[|ds| - 1] == tail[|tail| - 1];
      }
    } else {
      assert tail == ds;
    }
  }

  lemma FoldOfPositives(ds: seq<Duration>)
    requires forall d :: d in ds ==> d > 0
    ensures ds != [] ==> Fold(ds) == Min(ds)
    ensures ds == [] ==> Fold(ds) == 0
  {
  }
}
