/**
 * The three selectors the converter uses, all type selectors joined by
 * child combinators, and how cheerio finds their matches: among the
 * descendants of a context, in document order.
 */
module Selector {
  import opened Dom

  /** Type selectors joined by child combinators: ["dl", "dt", "a"] is `dl > dt > a`. */
  type Pattern = seq<string>

  predicate EndsWith(tags: seq<string>, pat: Pattern) {
    |pat| <= |tags| && tags[|tags| - |pat|..] == pat
  }

  /**
   * Reference meaning of `pat` searched below a context whose children are
   * `scope` (Selectors Level 3, section 8.1 for the search among
   * descendants, section 8.2 for `>`): the node at `p` is an element and it
   * and its nearest |pat| - 1 ancestors, all inside the scope, carry the
   * tags of `pat` in order (see TagsAlongAncestors).
   */
  ghost predicate Matches(scope: seq<Node>, p: Path, pat: Pattern) {
    ValidPath(scope, p) && NodeAt(scope, p).Element? && EndsWith(TagsAlong(scope, p), pat)
  }

  /** Document order on paths (preorder): an ancestor comes before its descendants, and an earlier sibling's subtree before a later one's. */
  predicate Precedes(p: Path, q: Path)
    decreases |p|
  {
    |q| > 0 && (|p| == 0 || p[0] < q[0] || (p[0] == q[0] && Precedes(p[1..], q[1..])))
  }

  predicate StrictlyOrdered(ps: seq<Path>) {
    forall i, j | 0 <= i < j < |ps| :: Precedes(ps[i], ps[j])
  }

  function Under(k: nat, ps: seq<Path>): (r: seq<Path>)
    ensures |r| == |ps| && forall i | 0 <= i < |ps| :: r[i] == [k] + ps[i]
  {
    seq(|ps|, i requires 0 <= i < |ps| => [k] + ps[i])
  }

  /**
   * The matches of `pat` in the subtrees of ns[k..], in document order, as
   * paths from `ns`; `anc` holds the tags of the in-scope ancestors of `ns`.
   */
  function MatchFrom(ns: seq<Node>, k: nat, anc: seq<string>, pat: Pattern): seq<Path>
    decreases ns, |ns| - k
  {
    if k >= |ns| then [] else Under(k, MatchNode(ns[k], anc, pat)) + MatchFrom(ns, k + 1, anc, pat)
  }

  /** The matches of `pat` in the subtree of `n`, `n` first, as paths from `n`. */
  function MatchNode(n: Node, anc: seq<string>, pat: Pattern): seq<Path>
    decreases n
  {
    match n
    case Element(t, _, cs) =>
      (if EndsWith(anc + [t], pat) then [[]] else []) + MatchFrom(cs, 0, anc + [t], pat)
    case _ => []
  }

  /** The paths of the matches of `pat` below a context whose children are `scope`. */
  function MatchPaths(scope: seq<Node>, pat: Pattern): (r: seq<Path>)
    ensures forall i | 0 <= i < |r| ::
      && ValidPath(scope, r[i]) && NodeAt(scope, r[i]).Element?
      && (|pat| > 0 ==> NodeAt(scope, r[i]).tag == pat[|pat| - 1])
  {
    var r := MatchFrom(scope, 0, [], pat);
    assert forall i | 0 <= i < |r| ::
      && ValidPath(scope, r[i]) && NodeAt(scope, r[i]).Element?
      && (|pat| > 0 ==> NodeAt(scope, r[i]).tag == pat[|pat| - 1])
    by {
      forall i | 0 <= i < |r|
        ensures ValidPath(scope, r[i]) && NodeAt(scope, r[i]).Element?
        ensures |pat| > 0 ==> NodeAt(scope, r[i]).tag == pat[|pat| - 1]
      {
        var p := r[i];
        MatchFromExact(scope, 0, [], pat, p);
        var tags := TagsAlong(scope, p);
        assert [] + tags == tags;
        assert tags[|tags| - 1] == NodeAt(scope, p).tag;
      }
    }
    r
  }

  /** `$(pat, context)` as a list of nodes: the nodes at MatchPaths, in that order. */
  function Select(scope: seq<Node>, pat: Pattern): (r: seq<Node>)
    ensures |r| == |MatchPaths(scope, pat)|
    ensures forall i | 0 <= i < |r| ::
      ValidPath(scope, MatchPaths(scope, pat)[i]) && r[i] == NodeAt(scope, MatchPaths(scope, pat)[i])
  {
    var ps := MatchPaths(scope, pat);
    seq(|ps|, i requires 0 <= i < |ps| => NodeAt(scope, ps[i]))
  }

  lemma UnderMember(k: nat, ps: seq<Path>, p: Path)
    ensures p in Under(k, ps) <==> |p| > 0 && p[0] == k && p[1..] in ps
  {
    var u := Under(k, ps);
    if p in u {
      var i :| 0 <= i < |u| && u[i] == p;
      assert p[1..] == ps[i];
    }
    if |p| > 0 && p[0] == k && p[1..] in ps {
      var i :| 0 <= i < |ps| && ps[i] == p[1..];
      assert u[i] == p;
    }
  }

  lemma {:induction false} MatchFromExact(ns: seq<Node>, k: nat, anc: seq<string>, pat: Pattern, p: Path)
    ensures p in MatchFrom(ns, k, anc, pat) <==>
      ValidPath(ns, p) && p[0] >= k && NodeAt(ns, p).Element? && EndsWith(anc + TagsAlong(ns, p), pat)
    decreases ns, |ns| - k
  {
    if k < |ns| {
      UnderMember(k, MatchNode(ns[k], anc, pat), p);
      if |p| > 0 && p[0] == k {
        MatchNodeExact(ns[k], anc, pat, p[1..]);
      }
      MatchFromExact(ns, k + 1, anc, pat, p);
    }
  }

  lemma {:induction false} MatchNodeExact(n: Node, anc: seq<string>, pat: Pattern, q: Path)
    ensures q in MatchNode(n, anc, pat) <==>
      ValidIn(n, q) && Sub(n, q).Element? && EndsWith(anc + TagTrail(n, q), pat)
    decreases n
  {
    match n
    case Element(t, _, cs) =>
      MatchFromExact(cs, 0, anc + [t], pat, q);
      if q != [] && ValidIn(n, q) && Sub(n, q).Element? {
        assert TagTrail(n, q) == [t] + TagsAlong(cs, q);
        assert anc + TagTrail(n, q) == (anc + [t]) + TagsAlong(cs, q);
      }
    case _ =>
  }

  /** The search finds exactly the matches: no path that does not match, and every path that does. */
  lemma SelectExact(scope: seq<Node>, pat: Pattern)
    ensures forall p :: p in MatchPaths(scope, pat) <==> Matches(scope, p, pat)
  {
    forall p ensures p in MatchPaths(scope, pat) <==> Matches(scope, p, pat) {
      MatchFromExact(scope, 0, [], pat, p);
      if ValidPath(scope, p) && NodeAt(scope, p).Element? {
        assert [] + TagsAlong(scope, p) == TagsAlong(scope, p);
      }
    }
  }

  lemma UnderPrecedes(k: nat, a: Path, b: Path)
    ensures Precedes([k] + a, [k] + b) == Precedes(a, b)
  {
    assert ([k] + a)[1..] == a && ([k] + b)[1..] == b;
  }

  lemma UnderOrdered(k: nat, ps: seq<Path>)
    requires StrictlyOrdered(ps)
    ensures StrictlyOrdered(Under(k, ps))
  {
    var u := Under(k, ps);
    forall i, j | 0 <= i < j < |u| ensures Precedes(u[i], u[j]) {
      UnderPrecedes(k, ps[i], ps[j]);
    }
  }

  lemma ConcatOrdered(a: seq<Path>, b: seq<Path>)
    requires StrictlyOrdered(a) && StrictlyOrdered(b)
    requires forall x, y | x in a && y in b :: Precedes(x, y)
    ensures StrictlyOrdered(a + b)
  {
    var c := a + b;
    forall i, j | 0 <= i < j < |c| ensures Precedes(c[i], c[j]) {
      if j < |a| {
        assert c[i] == a[i] && c[j] == a[j];
      } else if i >= |a| {
        assert c[i] == b[i - |a|] && c[j] == b[j - |a|];
      } else {
        assert c[i] == a[i] && c[j] == b[j - |a|];
      }
    }
  }

  lemma {:induction false} MatchFromOrdered(ns: seq<Node>, k: nat, anc: seq<string>, pat: Pattern)
    ensures StrictlyOrdered(MatchFrom(ns, k, anc, pat))
    ensures forall p | p in MatchFrom(ns, k, anc, pat) :: |p| > 0 && p[0] >= k
    decreases ns, |ns| - k
  {
    if k < |ns| {
      var a := MatchNode(ns[k], anc, pat);
      var u, rest := Under(k, a), MatchFrom(ns, k + 1, anc, pat);
      MatchNodeOrdered(ns[k], anc, pat);
      UnderOrdered(k, a);
      MatchFromOrdered(ns, k + 1, anc, pat);
      forall x | x in u ensures |x| > 0 && x[0] == k {
        UnderMember(k, a, x);
      }
      ConcatOrdered(u, rest);
    }
  }

  lemma {:induction false} MatchNodeOrdered(n: Node, anc: seq<string>, pat: Pattern)
    ensures StrictlyOrdered(MatchNode(n, anc, pat))
    decreases n
  {
    match n
    case Element(t, _, cs) =>
      var self: seq<Path> := if EndsWith(anc + [t], pat) then [[]] else [];
      MatchFromOrdered(cs, 0, anc + [t], pat);
      ConcatOrdered(self, MatchFrom(cs, 0, anc + [t], pat));
    case _ =>
  }

  /** The matches come in document order, each once. */
  lemma SelectInDocumentOrder(scope: seq<Node>, pat: Pattern)
    ensures StrictlyOrdered(MatchPaths(scope, pat))
    ensures forall i, j | 0 <= i < j < |MatchPaths(scope, pat)| :: MatchPaths(scope, pat)[i] != MatchPaths(scope, pat)[j]
  {
    var ps := MatchPaths(scope, pat);
    MatchFromOrdered(scope, 0, [], pat);
    forall i, j | 0 <= i < j < |ps| ensures ps[i] != ps[j] {
      PrecedesIrreflexive(ps[i]);
    }
  }

  lemma {:induction false} PrecedesIrreflexive(p: Path)
    ensures !Precedes(p, p)
    decreases |p|
  {
    if |p| > 0 {
      PrecedesIrreflexive(p[1..]);
    }
  }

  /** Document order is transitive. */
  lemma {:induction false} PrecedesTransitive(p: Path, q: Path, r: Path)
    requires Precedes(p, q) && Precedes(q, r)
    ensures Precedes(p, r)
    decreases |p|
  {
    if |p| > 0 && p[0] == q[0] == r[0] {
      PrecedesTransitive(p[1..], q[1..], r[1..]);
    }
  }

  /** Document order is total: of two different paths, one comes first. */
  lemma {:induction false} PrecedesTotal(p: Path, q: Path)
    requires p != q
    ensures Precedes(p, q) || Precedes(q, p)
    decreases |p|
  {
    if |p| > 0 && |q| > 0 && p[0] == q[0] {
      assert p == [p[0]] + p[1..] && q == [q[0]] + q[1..];
      PrecedesTotal(p[1..], q[1..]);
    }
  }

  /**
   * A match found below a nested node is also a match below any context
   * that contains it: a sub-folder's bookmarks are also found from every
   * enclosing folder.
   */
  lemma NestedMatch(scope: seq<Node>, q: Path, p: Path, pat: Pattern)
    requires ValidPath(scope, q) && NodeAt(scope, q).Element?
    requires Matches(NodeAt(scope, q).children, p, pat)
    ensures Matches(scope, q + p, pat)
    ensures NodeAt(scope, q + p) == NodeAt(NodeAt(scope, q).children, p)
  {
    PathConcat(scope, q, p);
    TagsAlongConcat(scope, q, p);
    EndsWithExtended(TagsAlong(scope, q), TagsAlong(NodeAt(scope, q).children, p), pat);
  }

  lemma EndsWithExtended(y: seq<string>, x: seq<string>, pat: Pattern)
    requires EndsWith(x, pat)
    ensures EndsWith(y + x, pat)
  {
    assert (y + x)[|y + x| - |pat|..] == x[|x| - |pat|..];
  }
}
