/**
 String-keyed identity. Three names are joined from the parts of an object's identity: the
 managed-by value and the status key with "/", and the local name of an AccessRequest with "--".
 */
module Names {
  import opened Wrappers

  datatype ObjectKey = ObjectKey(namespace: string, name: string)

  // ---- "<namespace>/<name>" ----

  /** managedByValue, propagateKey and the deduplication key of resolveNames are all this. */
  function SlashKey(k: ObjectKey): string {
    k.namespace + "/" + k.name
  }

  predicate SlashFree(s: string) {
    '/' !in s
  }

  lemma FirstSlash(k: ObjectKey)
    requires SlashFree(k.namespace)
    ensures SlashKey(k)[|k.namespace|] == '/'
    ensures forall i :: 0 <= i < |k.namespace| ==> SlashKey(k)[i] != '/'
  {
  }

  lemma SlashKeyInjective(j: ObjectKey, k: ObjectKey)
    requires SlashFree(j.namespace) && SlashFree(k.namespace)
    requires SlashKey(j) == SlashKey(k)
    ensures j == k
  {
    var s := SlashKey(j);
    FirstSlash(j);
    FirstSlash(k);
    assert |j.namespace| == |k.namespace|;
    assert j.namespace == s[..|j.namespace|] && k.namespace == s[..|k.namespace|];
    assert j.name == s[|j.namespace| + 1..] && k.name == s[|k.namespace| + 1..];
  }

  // ---- Names inside a managed control plane ----

  /** The token Secret of a GitRepository; its namespace plays no part. */
  function SecretName(repo: ObjectKey): string {
    repo.name + "-token"
  }

  lemma SecretNameInjective(a: ObjectKey, b: ObjectKey)
    requires SecretName(a) == SecretName(b)
    ensures a.name == b.name
  {
    assert a.name == SecretName(a)[..|SecretName(a)| - 6];
    assert b.name == SecretName(b)[..|SecretName(b)| - 6];
  }

  // ---- "<ns>--<name>--<cp ns>--<cp name>" ----

  function AccessLocalName(repo: ObjectKey, cp: ObjectKey): string {
    repo.namespace + "--" + (repo.name + "--" + (cp.namespace + "--" + cp.name))
  }

  /** What stands before and after the first "--". */
  function SplitFirst(s: string): (r: Option<(string, string)>)
    ensures r.Some? ==> r.value.0 + "--" + r.value.1 == s
  {
    if |s| < 2 then None
    else if s[0] == '-' && s[1] == '-' then Some(("", s[2..]))
    else match SplitFirst(s[1..])
      case None => None
      case Some(p) => Some(([s[0]] + p.0, p.1))
  }

  /** Splitting at the first "--" three times. */
  function DecodeLocalName(s: string): Option<(ObjectKey, ObjectKey)> {
    match SplitFirst(s)
    case None => None
    case Some(p) =>
      match SplitFirst(p.1)
      case None => None
      case Some(q) =>
        match SplitFirst(q.1)
        case None => None
        case Some(r) => Some((ObjectKey(p.0, q.0), ObjectKey(r.0, r.1)))
  }

  /** No "--" inside, and no "-" at the end where it would run into a separator. */
  predicate HyphenSafe(s: string) {
    && (forall i :: 0 <= i < |s| - 1 ==> s[i] != '-' || s[i + 1] != '-')
    && (s != "" ==> s[|s| - 1] != '-')
  }

  /** The last part may be anything: only the first three are followed by a separator. */
  predicate SafePair(repo: ObjectKey, cp: ObjectKey) {
    HyphenSafe(repo.namespace) && HyphenSafe(repo.name) && HyphenSafe(cp.namespace)
  }

  /** A separator written after `a` is the first one found exactly when `a` is hyphen-safe. */
  lemma {:induction false} SplitFirstRecovers(a: string, rest: string)
    ensures SplitFirst(a + "--" + rest).Some?
    ensures SplitFirst(a + "--" + rest) == Some((a, rest)) <==> HyphenSafe(a)
    ensures |SplitFirst(a + "--" + rest).value.0| <= |a|
  {
    var s := a + "--" + rest;
    if a == "" {
      assert s[2..] == rest;
    } else {
      SplitFirstRecovers(a[1..], rest);
      assert s[1..] == a[1..] + "--" + rest;
      if s[0] == '-' && s[1] == '-' {
        assert |a| > 1 ==> a[0] == a[1];
        assert !HyphenSafe(a);
      } else {
        var p := SplitFirst(s[1..]).value;
        assert [s[0]] + a[1..] == a;
        assert ([s[0]] + p.0)[1..] == p.0;
        HyphenSafeTail(a);
      }
    }
  }

  lemma HyphenSafeTail(a: string)
    requires a != ""
    ensures HyphenSafe(a) <==> HyphenSafe(a[1..]) && (a[0] != '-' || (|a| > 1 && a[1] != '-'))
  {
  }

  /** The local name is uniquely decodable for exactly the hyphen-safe pairs. */
  lemma LocalNameDecodes(repo: ObjectKey, cp: ObjectKey)
    ensures DecodeLocalName(AccessLocalName(repo, cp)) == Some((repo, cp)) <==> SafePair(repo, cp)
  {
    var tail2 := cp.namespace + "--" + cp.name;
    var tail1 := repo.name + "--" + tail2;
    SplitFirstRecovers(repo.namespace, tail1);
    SplitFirstRecovers(repo.name, tail2);
    SplitFirstRecovers(cp.namespace, cp.name);
    SplitSameHead(repo.namespace, tail1);
    SplitSameHead(repo.name, tail2);
    SplitSameHead(cp.namespace, cp.name);
  }

  /** If the part in front comes out right, so does the rest. */
  lemma SplitSameHead(a: string, rest: string)
    requires SplitFirst(a + "--" + rest).Some?
    ensures SplitFirst(a + "--" + rest).value.0 == a ==> SplitFirst(a + "--" + rest) == Some((a, rest))
  {
    if SplitFirst(a + "--" + rest).value.0 == a {
      SameTail(a + "--", SplitFirst(a + "--" + rest).value.1, rest);
    }
  }

  lemma LocalNameInjective(repo: ObjectKey, cp: ObjectKey, repo': ObjectKey, cp': ObjectKey)
    requires SafePair(repo, cp) && SafePair(repo', cp')
    requires AccessLocalName(repo, cp) == AccessLocalName(repo', cp')
    ensures repo == repo' && cp == cp'
  {
    LocalNameDecodes(repo, cp);
    LocalNameDecodes(repo', cp');
  }

  lemma SameTail(before: string, x: string, y: string)
    requires before + x == before + y
    ensures x == y
  {
    assert x == (before + x)[|before|..] && y == (before + y)[|before|..];
  }

  lemma SameHead(x: string, y: string, after: string)
    requires x + after == y + after
    ensures x == y
  {
    assert |x + after| == |x| + |after| && |y + after| == |y| + |after|;
    assert x == (x + after)[..|x|] && y == (y + after)[..|y|];
  }

  /** Whatever the parts, changing a single one of the four changes the name. */
  lemma LocalNameSeparatesOnePart(repo: ObjectKey, cp: ObjectKey, x: string)
    ensures AccessLocalName(repo.(namespace := x), cp) == AccessLocalName(repo, cp) ==> x == repo.namespace
    ensures AccessLocalName(repo.(name := x), cp) == AccessLocalName(repo, cp) ==> x == repo.name
    ensures AccessLocalName(repo, cp.(namespace := x)) == AccessLocalName(repo, cp) ==> x == cp.namespace
    ensures AccessLocalName(repo, cp.(name := x)) == AccessLocalName(repo, cp) ==> x == cp.name
  {
    var s := AccessLocalName(repo, cp);
    var tail2 := cp.namespace + "--" + cp.name;
    var tail1 := repo.name + "--" + tail2;
    if AccessLocalName(repo.(namespace := x), cp) == s {
      SameHead(x + "--", repo.namespace + "--", tail1);
      SameHead(x, repo.namespace, "--");
    }
    if AccessLocalName(repo.(name := x), cp) == s {
      SameTail(repo.namespace + "--", x + "--" + tail2, tail1);
      SameHead(x + "--", repo.name + "--", tail2);
      SameHead(x, repo.name, "--");
    }
    if AccessLocalName(repo, cp.(namespace := x)) == s {
      SameTail(repo.namespace + "--", repo.name + "--" + (x + "--" + cp.name), tail1);
      SameTail(repo.name + "--", x + "--" + cp.name, tail2);
      SameHead(x + "--", cp.namespace + "--", cp.name);
      SameHead(x, cp.namespace, "--");
    }
    if AccessLocalName(repo, cp.(name := x)) == s {
      SameTail(repo.namespace + "--", repo.name + "--" + (cp.namespace + "--" + x), tail1);
      SameTail(repo.name + "--", cp.namespace + "--" + x, tail2);
      SameTail(cp.namespace + "--", x, cp.name);
    }
  }

  /** Without the hypothesis two control planes can share one name; Kubernetes allows "--" inside names. */
  lemma LocalNamesCollide(repo: ObjectKey)
    ensures var cp, cp' := ObjectKey("x--y", "z"), ObjectKey("x", "y--z");
            cp != cp' && AccessLocalName(repo, cp) == AccessLocalName(repo, cp')
  {
  }
}
