/**
 internal/mcpaccess: expand the propagateTo list of a GitRepository into control planes, keep
 one AccessRequest on the platform cluster for each of them, and turn granted requests into
 handles to the right cluster.
 */
module McpAccess {
  import opened Wrappers
  import opened Names

  // ---- Names of the targets ----

  const KIND_CONTROL_PLANE := "ControlPlane"

  datatype PropagateTarget = PropagateTarget(
    kind: string,
    namespace: string,
    name: string,
    matchLabels: map<string, string>)

  datatype ControlPlane = ControlPlane(key: ObjectKey, labels: map<string, string>)

  /** A listing in the empty namespace is a listing across all of them. */
  predicate Selects(t: PropagateTarget, cp: ControlPlane) {
    && (t.namespace == "" || cp.key.namespace == t.namespace)
    && (forall k :: k in t.matchLabels ==> k in cp.labels && cp.labels[k] == t.matchLabels[k])
  }

  predicate NeedsList(t: PropagateTarget) {
    t.kind == KIND_CONTROL_PLANE && t.name == ""
  }

  /** The listed control planes, under the namespace the target gives. */
  function Listed(t: PropagateTarget, cps: seq<ControlPlane>): seq<ObjectKey> {
    if cps == [] then []
    else
      (if Selects(t, cps[0]) then [ObjectKey(t.namespace, cps[0].key.name)] else []) + Listed(t, cps[1..])
  }

  function RefsOf(t: PropagateTarget, cps: seq<ControlPlane>): seq<ObjectKey> {
    if t.kind != KIND_CONTROL_PLANE then []
    else if t.name != "" then [ObjectKey(t.namespace, t.name)]
    else Listed(t, cps)
  }

  /** All references in the order they come up, repetitions included. */
  function Candidates(targets: seq<PropagateTarget>, cps: seq<ControlPlane>): seq<ObjectKey> {
    if targets == [] then []
    else Candidates(targets[..|targets| - 1], cps) + RefsOf(targets[|targets| - 1], cps)
  }

  function KeysOf(refs: seq<ObjectKey>): set<string> {
    set k | k in refs :: SlashKey(k)
  }

  function AddRef(refs: seq<ObjectKey>, k: ObjectKey): seq<ObjectKey> {
    if SlashKey(k) in KeysOf(refs) then refs else refs + [k]
  }

  /** The first reference of each joined "<namespace>/<name>". */
  function Dedup(refs: seq<ObjectKey>): seq<ObjectKey> {
    if refs == [] then [] else AddRef(Dedup(refs[..|refs| - 1]), refs[|refs| - 1])
  }

  predicate ListingsAnswered(targets: seq<PropagateTarget>, n: nat, listOk: nat -> bool)
    requires n <= |targets|
  {
    forall i :: 0 <= i < n && NeedsList(targets[i]) ==> listOk(i)
  }

  /** One listing that is not answered fails the whole. */
  function TargetNames(targets: seq<PropagateTarget>, cps: seq<ControlPlane>, listOk: nat -> bool)
    : Option<seq<ObjectKey>>
  {
    if ListingsAnswered(targets, |targets|, listOk) then Some(Dedup(Candidates(targets, cps))) else None
  }

  lemma {:induction false} CandidatesAppend(targets: seq<PropagateTarget>, cps: seq<ControlPlane>, i: nat)
    requires i < |targets|
    ensures Candidates(targets[..i + 1], cps) == Candidates(targets[..i], cps) + RefsOf(targets[i], cps)
  {
    assert targets[..i + 1][..i] == targets[..i];
  }

  lemma KeysOfAppend(refs: seq<ObjectKey>, k: ObjectKey)
    ensures KeysOf(refs + [k]) == KeysOf(refs) + {SlashKey(k)}
  {
  }

  lemma DedupAppend(refs: seq<ObjectKey>, k: ObjectKey)
    ensures Dedup(refs + [k]) == AddRef(Dedup(refs), k)
  {
  }

  /** The references of one entry go through the `add` closure, which shares `seen` and `refs`. */
  method AddAll(refs0: seq<ObjectKey>, seen0: set<string>, found: seq<ObjectKey>, ghost before: seq<ObjectKey>)
    returns (refs: seq<ObjectKey>, seen: set<string>)
    requires refs0 == Dedup(before) && seen0 == KeysOf(refs0)
    ensures refs == Dedup(before + found) && seen == KeysOf(refs)
  {
    hide Dedup, KeysOf;
    refs, seen := refs0, seen0;
    assert before + found[..0] == before;
    for j := 0 to |found|
      invariant refs == Dedup(before + found[..j])
      invariant seen == KeysOf(refs)
    {
      var k := found[j];
      DedupAppend(before + found[..j], k);
      assert before + found[..j + 1] == before + found[..j] + [k];
      if SlashKey(k) !in seen {
        KeysOfAppend(refs, k);
        seen := seen + {SlashKey(k)};
        refs := refs + [k];
      }
    }
    assert found[..|found|] == found;
  }

  /** The references of one entry, or None if its listing fails. */
  method Expand(t: PropagateTarget, cps: seq<ControlPlane>, ok: bool) returns (found: Option<seq<ObjectKey>>)
    ensures found == if NeedsList(t) && !ok then None else Some(RefsOf(t, cps))
  {
    if t.kind != KIND_CONTROL_PLANE {
      return Some([]);
    }
    if t.name != "" {
      return Some([ObjectKey(t.namespace, t.name)]);
    }
    found := if ok then Some(Listed(t, cps)) else None;
  }

  /** resolveNames; `listOk` says which of the listings are answered. */
  method ResolveNames(targets: seq<PropagateTarget>, cps: seq<ControlPlane>, listOk: nat -> bool)
    returns (r: Option<seq<ObjectKey>>)
    ensures r == TargetNames(targets, cps, listOk)
  {
    var seen: set<string> := {};
    var refs: seq<ObjectKey> := [];
    assert Dedup(Candidates(targets[..0], cps)) == [] && KeysOf([]) == {};
    hide Dedup, Candidates, RefsOf, KeysOf;
    for i := 0 to |targets|
      invariant refs == Dedup(Candidates(targets[..i], cps)) && seen == KeysOf(refs)
      invariant ListingsAnswered(targets, i, listOk)
    {
      CandidatesAppend(targets, cps, i);
      var found := Expand(targets[i], cps, listOk(i));
      if found.None? {
        return None;
      }
      refs, seen := AddAll(refs, seen, found.value, Candidates(targets[..i], cps));
    }
    assert targets[..|targets|] == targets;
    r := Some(refs);
  }

  // ---- What the list of names means ----

  /** The explicit names and the label matches. */
  predicate Wanted(targets: seq<PropagateTarget>, cps: seq<ControlPlane>, k: ObjectKey) {
    exists i :: 0 <= i < |targets| && k in RefsOf(targets[i], cps)
  }

  lemma {:induction false} CandidatesAreWanted(targets: seq<PropagateTarget>, cps: seq<ControlPlane>, k: ObjectKey)
    ensures k in Candidates(targets, cps) <==> Wanted(targets, cps, k)
  {
    if targets == [] {
    } else {
      hide RefsOf;
      var front, last := targets[..|targets| - 1], targets[|targets| - 1];
      CandidatesAreWanted(front, cps, k);
      assert targets == front + [last];
      if Wanted(front, cps, k) {
        var i :| 0 <= i < |front| && k in RefsOf(front[i], cps);
        assert k in RefsOf(targets[i], cps);
      }
      if Wanted(targets, cps, k) {
        var i :| 0 <= i < |targets| && k in RefsOf(targets[i], cps);
        assert i < |front| ==> front[i] == targets[i];
      }
    }
  }

  /** In the namespace of the entry, or in any if it gives none, with each of its labels at its value. */
  predicate Matches(t: PropagateTarget, cp: ControlPlane) {
    && (t.namespace == cp.key.namespace || |t.namespace| == 0)
    && t.matchLabels.Items <= cp.labels.Items
  }

  lemma SelectsMeaning(t: PropagateTarget, cp: ControlPlane)
    ensures Selects(t, cp) <==> Matches(t, cp)
  {
    if Selects(t, cp) {
      forall i | i in t.matchLabels.Items
        ensures i in cp.labels.Items
      {
        assert i.0 in t.matchLabels && t.matchLabels[i.0] == i.1;
      }
    }
    if Matches(t, cp) {
      forall k | k in t.matchLabels
        ensures k in cp.labels && cp.labels[k] == t.matchLabels[k]
      {
        assert (k, t.matchLabels[k]) in t.matchLabels.Items;
      }
    }
  }

  lemma {:induction false} ListedMeaning(t: PropagateTarget, cps: seq<ControlPlane>, k: ObjectKey)
    ensures k in Listed(t, cps)
       <==> k.namespace == t.namespace && exists cp :: cp in cps && Matches(t, cp) && cp.key.name == k.name
  {
    if cps == [] {
    } else {
      SelectsMeaning(t, cps[0]);
      ListedMeaning(t, cps[1..], k);
      assert forall cp :: cp in cps <==> cp == cps[0] || cp in cps[1..];
    }
  }

  lemma {:induction false} DedupKeys(refs: seq<ObjectKey>)
    ensures KeysOf(Dedup(refs)) == KeysOf(refs)
    ensures forall k :: k in Dedup(refs) ==> k in refs
    ensures forall p, q :: 0 <= p < q < |Dedup(refs)| ==> SlashKey(Dedup(refs)[p]) != SlashKey(Dedup(refs)[q])
  {
    if refs == [] {
    } else {
      var front, last := refs[..|refs| - 1], refs[|refs| - 1];
      DedupKeys(front);
      assert refs == front + [last];
      KeysOfAppend(front, last);
      KeysOfAppend(Dedup(front), last);
      forall p, q | 0 <= p < q < |Dedup(refs)|
        ensures SlashKey(Dedup(refs)[p]) != SlashKey(Dedup(refs)[q])
      {
        assert Dedup(front)[p] in Dedup(front);
      }
    }
  }

  /** Where the joined name of `k` comes up first. */
  function FirstIndex(refs: seq<ObjectKey>, k: ObjectKey): (i: nat)
    requires SlashKey(k) in KeysOf(refs)
    ensures i < |refs| && SlashKey(refs[i]) == SlashKey(k)
    ensures forall j :: 0 <= j < i ==> SlashKey(refs[j]) != SlashKey(k)
  {
    if SlashKey(refs[0]) == SlashKey(k) then 0
    else
      assert refs == [refs[0]] + refs[1..];
      1 + FirstIndex(refs[1..], k)
  }

  /** The list keeps the order of first occurrences. */
  lemma {:induction false} DedupOrder(refs: seq<ObjectKey>, p: nat, q: nat)
    requires p < q < |Dedup(refs)|
    ensures SlashKey(Dedup(refs)[p]) in KeysOf(refs) && SlashKey(Dedup(refs)[q]) in KeysOf(refs)
    ensures FirstIndex(refs, Dedup(refs)[p]) < FirstIndex(refs, Dedup(refs)[q])
  {
    DedupKeys(refs);
    var front, last := refs[..|refs| - 1], refs[|refs| - 1];
    var a, b := Dedup(refs)[p], Dedup(refs)[q];
    DedupKeys(front);
    assert Dedup(front)[p] == a && a in Dedup(front) && SlashKey(a) in KeysOf(front);
    if q < |Dedup(front)| {
      DedupOrder(front, p, q);
      FirstIndexFront(refs, b);
    } else {
      assert b == last && SlashKey(b) !in KeysOf(front);
      assert forall i :: 0 <= i < |front| ==> front[i] in front;
    }
    FirstIndexFront(refs, a);
  }

  lemma FirstIndexFront(refs: seq<ObjectKey>, k: ObjectKey)
    requires refs != [] && SlashKey(k) in KeysOf(refs[..|refs| - 1])
    ensures SlashKey(k) in KeysOf(refs)
    ensures FirstIndex(refs, k) == FirstIndex(refs[..|refs| - 1], k)
  {
    var front := refs[..|refs| - 1];
    var i := FirstIndex(front, k);
    assert forall x :: 0 <= x < |front| ==> front[x] == refs[x];
    assert refs[i] == front[i] && refs[i] in refs;
    var j := FirstIndex(refs, k);
    assert j <= i;
  }

  /** Deduplication by the pair itself instead of the joined string. */
  function DedupPairs(refs: seq<ObjectKey>): seq<ObjectKey> {
    if refs == [] then []
    else
      var front := DedupPairs(refs[..|refs| - 1]);
      if refs[|refs| - 1] in front then front else front + [refs[|refs| - 1]]
  }

  lemma {:induction false} DedupPairsElements(refs: seq<ObjectKey>)
    ensures forall k :: k in DedupPairs(refs) <==> k in refs
  {
    if refs == [] {
    } else {
      DedupPairsElements(refs[..|refs| - 1]);
      assert refs == refs[..|refs| - 1] + [refs[|refs| - 1]];
    }
  }

  predicate KeysSeparate(refs: seq<ObjectKey>) {
    forall j, k :: j in refs && k in refs && SlashKey(j) == SlashKey(k) ==> j == k
  }

  /** Both ways of deduplicating agree exactly when no two references share a joined name. */
  lemma {:induction false} DedupAgrees(refs: seq<ObjectKey>)
    ensures Dedup(refs) == DedupPairs(refs) <==> KeysSeparate(refs)
  {
    DedupKeys(refs);
    DedupPairsElements(refs);
    if Dedup(refs) == DedupPairs(refs) {
      forall j, k | j in refs && k in refs && SlashKey(j) == SlashKey(k)
        ensures j == k
      {
        var p :| 0 <= p < |Dedup(refs)| && Dedup(refs)[p] == j;
        var q :| 0 <= q < |Dedup(refs)| && Dedup(refs)[q] == k;
      }
    } else if KeysSeparate(refs) {
      SeparateKeysDedup(refs);
    }
  }

  lemma {:induction false} SeparateKeysDedup(refs: seq<ObjectKey>)
    requires KeysSeparate(refs)
    ensures Dedup(refs) == DedupPairs(refs)
  {
    if refs == [] {
    } else {
      var front, last := refs[..|refs| - 1], refs[|refs| - 1];
      assert refs == front + [last];
      SeparateKeysDedup(front);
      DedupKeys(front);
      DedupPairsElements(front);
    }
  }

  /** resolveNames in one statement: for namespaces without "/", the list has no repetitions and
      holds exactly the explicit names and the label matches. */
  lemma ResolvedNames(targets: seq<PropagateTarget>, cps: seq<ControlPlane>)
    requires forall i :: 0 <= i < |targets| ==> SlashFree(targets[i].namespace)
    ensures var refs := Dedup(Candidates(targets, cps));
      && refs == DedupPairs(Candidates(targets, cps))
      && (forall p, q :: 0 <= p < q < |refs| ==> refs[p] != refs[q])
      && (forall k :: k in refs <==> Wanted(targets, cps, k))
  {
    var c := Candidates(targets, cps);
    forall k | k in c
      ensures SlashFree(k.namespace)
    {
      CandidatesAreWanted(targets, cps, k);
      var i :| 0 <= i < |targets| && k in RefsOf(targets[i], cps);
      ListedMeaning(targets[i], cps, k);
    }
    forall j, k | j in c && k in c && SlashKey(j) == SlashKey(k)
      ensures j == k
    {
      SlashKeyInjective(j, k);
    }
    SeparateKeysDedup(c);
    DedupKeys(c);
    DedupPairsElements(c);
    forall k
      ensures k in Dedup(c) <==> Wanted(targets, cps, k)
    {
      CandidatesAreWanted(targets, cps, k);
    }
  }

  /** What an entry wants: the control plane it names, or those it matches. Entries of other kinds want
      nothing. */
  lemma WantedMeaning(targets: seq<PropagateTarget>, cps: seq<ControlPlane>, k: ObjectKey)
    ensures Wanted(targets, cps, k) <==>
      exists t :: t in targets && t.kind == "ControlPlane" && k.namespace == t.namespace
        && if |t.name| > 0 then k.name == t.name
           else exists cp :: cp in cps && Matches(t, cp) && cp.key.name == k.name
  {
    forall t
      ensures k in RefsOf(t, cps) <==>
        && t.kind == "ControlPlane" && k.namespace == t.namespace
        && if |t.name| > 0 then k.name == t.name
           else exists cp :: cp in cps && Matches(t, cp) && cp.key.name == k.name
    {
      ListedMeaning(t, cps, k);
    }
    if Wanted(targets, cps, k) {
      var i :| 0 <= i < |targets| && k in RefsOf(targets[i], cps);
      assert targets[i] in targets;
    }
    if t :| t in targets && k in RefsOf(t, cps) {
      var i :| 0 <= i < |targets| && targets[i] == t;
      assert k in RefsOf(targets[i], cps);
    }
  }

  /** The names cannot be told exactly if a listing fails, which is made for each entry without a name. */
  lemma ListingMeaning(targets: seq<PropagateTarget>, cps: seq<ControlPlane>, listOk: nat -> bool)
    ensures TargetNames(targets, cps, listOk).None?
       <==> exists i :: 0 <= i < |targets| && targets[i].kind == "ControlPlane" && |targets[i].name| == 0 && !listOk(i)
  {
    if i :| 0 <= i < |targets| && NeedsList(targets[i]) && !listOk(i) {
      assert !ListingsAnswered(targets, |targets|, listOk);
    }
  }

  lemma LastEntry(ts: seq<PropagateTarget>, last: PropagateTarget, cps: seq<ControlPlane>)
    ensures Candidates(ts + [last], cps) == Candidates(ts, cps) + RefsOf(last, cps)
  {
    assert (ts + [last])[..|ts|] == ts;
  }

  lemma NoEntries(cps: seq<ControlPlane>)
    ensures Candidates([], cps) == []
  {
  }

  lemma NothingListed(t: PropagateTarget)
    ensures Listed(t, []) == []
  {
  }

  /** References come entry by entry, and within an entry in the order of the listing. */
  lemma {:induction false} EntriesInOrder(a: seq<PropagateTarget>, b: seq<PropagateTarget>, cps: seq<ControlPlane>)
    ensures Candidates(a + b, cps) == Candidates(a, cps) + Candidates(b, cps)
  {
    hide *;
    if b == [] {
      NoEntries(cps);
      assert a + b == a;
    } else {
      var front, last := b[..|b| - 1], b[|b| - 1];
      EntriesInOrder(a, front, cps);
      LastEntry(a + front, last, cps);
      LastEntry(front, last, cps);
      assert b == front + [last] && a + b == a + front + [last];
    }
  }

  lemma FirstListed(t: PropagateTarget, first: ControlPlane, cps: seq<ControlPlane>)
    ensures Listed(t, [first] + cps) == Listed(t, [first]) + Listed(t, cps)
  {
    hide Selects;
    assert ([first] + cps)[1..] == cps && [first][1..] == [];
  }

  lemma {:induction false} ListingInOrder(t: PropagateTarget, a: seq<ControlPlane>, b: seq<ControlPlane>)
    ensures Listed(t, a + b) == Listed(t, a) + Listed(t, b)
  {
    hide *;
    if a == [] {
      NothingListed(t);
      assert a + b == b;
    } else {
      var first, rest := a[0], a[1..];
      ListingInOrder(t, rest, b);
      FirstListed(t, first, rest + b);
      FirstListed(t, first, rest);
      assert a == [first] + rest && a + b == [first] + (rest + b);
    }
  }
}
