/**
 The `propagated` list in a GitRepository's status: a list kept as a map from control planes to
 the outcome of propagating to them.
 */
module StatusList {
  import opened Wrappers
  import opened GoTime
  import opened Names

  datatype PropagatePhase = Pending | Ready | TokenFailed | FluxFailed | Conflict

  datatype PropagateStatus = PropagateStatus(
    controlPlane: ObjectKey,
    phase: PropagatePhase,
    reason: string,
    tokenExpiresAt: Option<Instant>)

  type Statuses = seq<PropagateStatus>

  /** setPropagateStatus: replace the first entry of the control plane, or append. */
  function Upsert(list: Statuses, ps: PropagateStatus): Statuses {
    if list == [] then [ps]
    else if list[0].controlPlane == ps.controlPlane then [ps] + list[1..]
    else [list[0]] + Upsert(list[1..], ps)
  }

  /** filterPropagateStatus: drop the entries whose joined name is not desired. */
  function Keep(list: Statuses, desired: set<string>): Statuses {
    if list == [] then []
    else
      var front := Keep(list[..|list| - 1], desired);
      if SlashKey(list[|list| - 1].controlPlane) in desired then front + [list[|list| - 1]] else front
  }

  function UpsertAll(list: Statuses, results: Statuses): Statuses {
    if results == [] then list else Upsert(UpsertAll(list, results[..|results| - 1]), results[|results| - 1])
  }

  lemma UpsertAllAppend(list: Statuses, results: Statuses, ps: PropagateStatus)
    ensures UpsertAll(list, results + [ps]) == Upsert(UpsertAll(list, results), ps)
  {
  }

  lemma {:induction false} UpsertSkips(list: Statuses, ps: PropagateStatus, i: nat)
    requires i <= |list|
    requires forall j :: 0 <= j < i ==> list[j].controlPlane != ps.controlPlane
    ensures Upsert(list, ps) == list[..i] + Upsert(list[i..], ps)
  {
    if i == 0 {
      assert list[0..] == list;
    } else {
      UpsertSkips(list[1..], ps, i - 1);
      assert list[1..][i - 1..] == list[i..];
      assert [list[0]] + list[1..][..i - 1] == list[..i];
    }
  }

  /** A status held by reference, as the reconciler passes it around. */
  class StatusHolder {
    var propagated: Statuses

    constructor (propagated: Statuses)
      ensures this.propagated == propagated
    {
      this.propagated := propagated;
    }

    method SetPropagateStatus(ps: PropagateStatus)
      modifies this
      ensures propagated == Upsert(old(propagated), ps)
    {
      for i := 0 to |propagated|
        invariant propagated == old(propagated)
        invariant forall j :: 0 <= j < i ==> propagated[j].controlPlane != ps.controlPlane
      {
        if propagated[i].controlPlane == ps.controlPlane {
          UpsertSkips(propagated, ps, i);
          propagated := propagated[i := ps];
          return;
        }
      }
      UpsertSkips(propagated, ps, |propagated|);
      propagated := propagated + [ps];
    }

    method FilterPropagateStatus(desired: set<string>)
      modifies this
      ensures propagated == Keep(old(propagated), desired)
    {
      var out: Statuses := [];
      for i := 0 to |propagated|
        invariant propagated == old(propagated)
        invariant out == Keep(propagated[..i], desired)
      {
        assert propagated[..i + 1][..i] == propagated[..i];
        if SlashKey(propagated[i].controlPlane) in desired {
          out := out + [propagated[i]];
        }
      }
      assert propagated[..|propagated|] == propagated;
      propagated := out;
    }
  }

  // ---- The list as a map ----

  predicate Unique(list: Statuses) {
    forall i, j :: 0 <= i < j < |list| ==> list[i].controlPlane != list[j].controlPlane
  }

  function Find(list: Statuses, cp: ObjectKey): (r: Option<PropagateStatus>)
    ensures r.Some? ==> r.value in list && r.value.controlPlane == cp
    ensures r.None? ==> forall ps :: ps in list ==> ps.controlPlane != cp
  {
    if list == [] then None
    else if list[|list| - 1].controlPlane == cp then Some(list[|list| - 1])
    else
      assert list == list[..|list| - 1] + [list[|list| - 1]];
      Find(list[..|list| - 1], cp)
  }

  lemma FindUnique(list: Statuses, ps: PropagateStatus)
    requires Unique(list) && ps in list
    ensures Find(list, ps.controlPlane) == Some(ps)
  {
  }

  /** Every entry replaced by the result for its control plane, if there is one. */
  function Replaced(list: Statuses, results: Statuses): Statuses {
    seq(|list|, i requires 0 <= i < |list| => Find(results, list[i].controlPlane).GetOr(list[i]))
  }

  /** The results for control planes the list does not know yet, in their order. */
  function Newcomers(list: Statuses, results: Statuses): Statuses {
    if results == [] then []
    else
      var front, last := Newcomers(list, results[..|results| - 1]), results[|results| - 1];
      if Find(list, last.controlPlane).None? then front + [last] else front
  }

  /** The entries whose control plane has a result, replaced by it. */
  function Survivors(list: Statuses, results: Statuses): Statuses {
    if list == [] then []
    else
      var front, hit := Survivors(list[..|list| - 1], results), Find(results, list[|list| - 1].controlPlane);
      if hit.Some? then front + [hit.value] else front
  }

  lemma {:induction false} NewcomersAreResults(list: Statuses, results: Statuses)
    ensures forall ps :: ps in Newcomers(list, results) <==> ps in results && Find(list, ps.controlPlane).None?
    ensures Unique(results) ==> Unique(Newcomers(list, results))
  {
    if results == [] {
    } else {
      NewcomersAreResults(list, results[..|results| - 1]);
      assert results == results[..|results| - 1] + [results[|results| - 1]];
      if Unique(results) {
        var n := Newcomers(list, results[..|results| - 1]);
        forall i | 0 <= i < |n|
          ensures n[i].controlPlane != results[|results| - 1].controlPlane
        {
          assert n[i] in n;
        }
      }
    }
  }

  lemma {:induction false} UpsertKnown(a: Statuses, b: Statuses, ps: PropagateStatus, i: nat)
    requires i < |a| && a[i].controlPlane == ps.controlPlane
    requires forall j :: 0 <= j < i ==> a[j].controlPlane != ps.controlPlane
    ensures Upsert(a + b, ps) == a[i := ps] + b
  {
    UpsertSkips(a + b, ps, i);
    assert (a + b)[i..] == [a[i]] + (a + b)[i + 1..];
    assert (a + b)[..i] == a[..i];
  }

  lemma UpsertNew(list: Statuses, ps: PropagateStatus)
    requires forall j :: 0 <= j < |list| ==> list[j].controlPlane != ps.controlPlane
    ensures Upsert(list, ps) == list + [ps]
  {
  }

  /** One more result for a control plane that is in the list. */
  lemma ReplacedKnown(list: Statuses, front: Statuses, last: PropagateStatus, i: nat)
    requires Unique(list) && i < |list| && list[i].controlPlane == last.controlPlane
    ensures Upsert(Replaced(list, front) + Newcomers(list, front), last)
         == Replaced(list, front + [last]) + Newcomers(list, front)
  {
    hide Newcomers;
    var a := Replaced(list, front);
    FindAppend(front, last);
    assert forall j :: 0 <= j < |list| ==> a[j].controlPlane == list[j].controlPlane;
    UpsertKnown(a, Newcomers(list, front), last, i);
    assert Replaced(list, front + [last]) == a[i := last];
  }

  /** One more result for a control plane that is neither in the list nor among the earlier results. */
  lemma ReplacedNew(list: Statuses, front: Statuses, last: PropagateStatus)
    requires Find(list, last.controlPlane).None? && Find(front, last.controlPlane).None?
    ensures Upsert(Replaced(list, front) + Newcomers(list, front), last)
         == Replaced(list, front + [last]) + (Newcomers(list, front) + [last])
  {
    hide Newcomers, Upsert, Find;
    var a, b := Replaced(list, front), Newcomers(list, front);
    FindAppend(front, last);
    NewcomersAreResults(list, front);
    assert forall j :: 0 <= j < |list| ==> list[j] in list && a[j].controlPlane == list[j].controlPlane;
    assert forall j :: 0 <= j < |b| ==> b[j] in b;
    UpsertNew(a + b, last);
    assert Replaced(list, front + [last]) == a;
    assert a + b + [last] == a + (b + [last]);
  }

  lemma FindAppend(front: Statuses, last: PropagateStatus)
    ensures forall cp :: Find(front + [last], cp) == if cp == last.controlPlane then Some(last) else Find(front, cp)
  {
  }

  /** What a run of upserts makes of the list: old entries in place, new ones behind them. */
  lemma {:induction false} UpsertAllForm(list: Statuses, results: Statuses)
    requires Unique(list) && Unique(results)
    ensures UpsertAll(list, results) == Replaced(list, results) + Newcomers(list, results)
  {
    if results == [] {
      assert Replaced(list, results) == list;
    } else {
      hide Replaced, Upsert;
      var front, last := results[..|results| - 1], results[|results| - 1];
      assert results == front + [last];
      UpsertAllForm(list, front);
      if Find(list, last.controlPlane).Some? {
        var i :| 0 <= i < |list| && list[i] == Find(list, last.controlPlane).value;
        ReplacedKnown(list, front, last, i);
      } else {
        ReplacedNew(list, front, last);
      }
    }
  }

  lemma {:induction false} KeepConcat(a: Statuses, b: Statuses, desired: set<string>)
    ensures Keep(a + b, desired) == Keep(a, desired) + Keep(b, desired)
  {
    if b == [] {
      assert a + b == a;
    } else {
      KeepConcat(a, b[..|b| - 1], desired);
      assert (a + b)[..|a + b| - 1] == a + b[..|b| - 1];
    }
  }

  lemma {:induction false} KeepAll(list: Statuses, desired: set<string>)
    requires forall ps :: ps in list ==> SlashKey(ps.controlPlane) in desired
    ensures Keep(list, desired) == list
  {
    if list == [] {
    } else {
      KeepAll(list[..|list| - 1], desired);
      assert list == list[..|list| - 1] + [list[|list| - 1]];
    }
  }

  /** No two different control planes, old or new, are joined to one string. */
  ghost predicate PlanesSeparate(list: Statuses, results: Statuses) {
    forall p, q :: (p in list || p in results) && q in results && SlashKey(p.controlPlane) == SlashKey(q.controlPlane)
      ==> p.controlPlane == q.controlPlane
  }

  function Desired(results: Statuses): set<string> {
    set ps | ps in results :: SlashKey(ps.controlPlane)
  }

  lemma DesiredIffFound(list: Statuses, results: Statuses, p: PropagateStatus)
    requires PlanesSeparate(list, results) && p in list
    ensures SlashKey(p.controlPlane) in Desired(results) <==> Find(results, p.controlPlane).Some?
  {
  }

  lemma {:induction false} KeepReplaced(list: Statuses, results: Statuses)
    requires PlanesSeparate(list, results)
    ensures Keep(Replaced(list, results), Desired(results)) == Survivors(list, results)
  {
    if list == [] {
      assert Replaced(list, results) == [];
    } else {
      var front, last := list[..|list| - 1], list[|list| - 1];
      assert list == front + [last];
      KeepReplaced(front, results);
      var r := Replaced(list, results);
      assert r[..|r| - 1] == Replaced(front, results);
      DesiredIffFound(list, results, last);
    }
  }

  function UpdatedStatuses(list: Statuses, results: Statuses): Statuses {
    Keep(UpsertAll(list, results), Desired(results))
  }

  /** The list refines a map: the survivors of the old list in their old order, each replaced by
      its own result, and then the new control planes in target order. */
  lemma UpdatedForm(list: Statuses, results: Statuses)
    requires Unique(list) && Unique(results) && PlanesSeparate(list, results)
    ensures UpdatedStatuses(list, results) == Survivors(list, results) + Newcomers(list, results)
  {
    UpsertAllForm(list, results);
    KeepConcat(Replaced(list, results), Newcomers(list, results), Desired(results));
    KeepReplaced(list, results);
    NewcomersAreResults(list, results);
    KeepAll(Newcomers(list, results), Desired(results));
  }

  lemma {:induction false} SurvivorsAreResults(list: Statuses, results: Statuses)
    requires Unique(list)
    ensures forall ps ::
      ps in Survivors(list, results)
      <==> Find(list, ps.controlPlane).Some? && Find(results, ps.controlPlane) == Some(ps)
    ensures Unique(Survivors(list, results))
  {
    if list == [] {
    } else {
      var front, last := list[..|list| - 1], list[|list| - 1];
      assert list == front + [last];
      SurvivorsAreResults(front, results);
      var s := Survivors(front, results);
      forall i | 0 <= i < |s|
        ensures s[i].controlPlane != last.controlPlane
      {
        assert s[i] in s;
        var p := Find(front, s[i].controlPlane).value;
      }
    }
  }

  /** As a map: unique keys, exactly the control planes with a result, each with its own result. */
  lemma UpdatedIsMap(list: Statuses, results: Statuses)
    requires Unique(list) && Unique(results) && PlanesSeparate(list, results)
    ensures Unique(UpdatedStatuses(list, results))
    ensures forall ps :: ps in UpdatedStatuses(list, results) <==> ps in results
  {
    UpdatedForm(list, results);
    SurvivorsAreResults(list, results);
    NewcomersAreResults(list, results);
    var s, n := Survivors(list, results), Newcomers(list, results);
    forall i, j | 0 <= i < |s| && 0 <= j < |n|
      ensures s[i].controlPlane != n[j].controlPlane
    {
      assert s[i] in s && n[j] in n;
    }
    forall ps | ps in results
      ensures ps in s + n
    {
      FindUnique(results, ps);
    }
  }

  /** Doing it again with the same results changes nothing. */
  lemma UpdatedIsFixpoint(list: Statuses, results: Statuses)
    requires Unique(list) && Unique(results) && PlanesSeparate(list, results)
    ensures var once := UpdatedStatuses(list, results); UpdatedStatuses(once, results) == once
  {
    var once := UpdatedStatuses(list, results);
    UpdatedIsMap(list, results);
    UpdatedForm(once, results);
    NoNewcomers(once, results);
    SurvivorsOfResults(once, results);
  }

  lemma {:induction false} SurvivorsOfResults(list: Statuses, results: Statuses)
    requires Unique(results) && forall ps :: ps in list ==> ps in results
    ensures Survivors(list, results) == list
  {
    if list == [] {
    } else {
      var front, last := list[..|list| - 1], list[|list| - 1];
      assert list == front + [last];
      SurvivorsOfResults(front, results);
      assert last in list;
      FindUnique(results, last);
    }
  }

  lemma {:induction false} NoNewcomers(list: Statuses, results: Statuses)
    requires forall ps :: ps in results ==> ps in list
    ensures Newcomers(list, results) == []
  {
    if results == [] {
    } else {
      NoNewcomers(list, results[..|results| - 1]);
      assert results[|results| - 1] in results;
    }
  }
}
