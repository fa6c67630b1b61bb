/**
 * The parsed document as the converter sees it through cheerio: a tree of
 * element, text and comment nodes, with paths that address its nodes.
 */
module Dom {
  import opened Wrappers

  /** A node of the parsed document. Tag and attribute names are lower case, as the HTML parser leaves them. */
  datatype Node =
    | Element(tag: string, attrs: map<string, string>, children: seq<Node>)
    | Text(data: string)
    | Comment(data: string)

  /** Child indices leading down from a node, or from a sequence of nodes. */
  type Path = seq<nat>

  /** `q` leads from `n` to a node of its subtree; [] leads to `n` itself. */
  predicate ValidIn(n: Node, q: Path)
    decreases q
  {
    q == [] || (n.Element? && q[0] < |n.children| && ValidIn(n.children[q[0]], q[1..]))
  }

  function Sub(n: Node, q: Path): Node
    requires ValidIn(n, q)
    decreases q
  {
    if q == [] then n else Sub(n.children[q[0]], q[1..])
  }

  /** `p` leads from the sequence `ns` to one of the nodes in its subtrees. */
  predicate ValidPath(ns: seq<Node>, p: Path) {
    |p| > 0 && p[0] < |ns| && ValidIn(ns[p[0]], p[1..])
  }

  function NodeAt(ns: seq<Node>, p: Path): Node
    requires ValidPath(ns, p)
  {
    Sub(ns[p[0]], p[1..])
  }

  /** The tags of the elements from `n` down to the element at `q`, in that order. */
  function TagTrail(n: Node, q: Path): (r: seq<string>)
    requires ValidIn(n, q) && Sub(n, q).Element?
    ensures |r| == |q| + 1 && r[0] == n.tag && r[|q|] == Sub(n, q).tag
    decreases q
  {
    [n.tag] + if q == [] then [] else TagTrail(n.children[q[0]], q[1..])
  }

  /** The tags of the elements on the path from the top of `ns` down to the element at `p`. */
  function TagsAlong(ns: seq<Node>, p: Path): seq<string>
    requires ValidPath(ns, p) && NodeAt(ns, p).Element?
  {
    TagTrail(ns[p[0]], p[1..])
  }

  /** Every proper prefix of a valid path leads to an element, and the trail lists the tags of those elements. */
  lemma {:induction false} TagTrailAncestors(n: Node, q: Path, d: nat)
    requires ValidIn(n, q) && Sub(n, q).Element? && d <= |q|
    ensures ValidIn(n, q[..d]) && Sub(n, q[..d]).Element?
    ensures TagTrail(n, q)[d] == Sub(n, q[..d]).tag
    decreases q
  {
    if d > 0 {
      TagTrailAncestors(n.children[q[0]], q[1..], d - 1);
      assert q[..d][0] == q[0] && q[..d][1..] == q[1..][..d - 1];
    }
  }

  /** Entry `d - 1` of TagsAlong is the tag of the ancestor-or-self at depth `d`, which is an element. */
  lemma TagsAlongAncestors(ns: seq<Node>, p: Path, d: nat)
    requires ValidPath(ns, p) && NodeAt(ns, p).Element? && 1 <= d <= |p|
    ensures ValidPath(ns, p[..d]) && NodeAt(ns, p[..d]).Element?
    ensures TagsAlong(ns, p)[d - 1] == NodeAt(ns, p[..d]).tag
  {
    TagTrailAncestors(ns[p[0]], p[1..], d - 1);
    assert p[..d][0] == p[0] && p[..d][1..] == p[1..][..d - 1];
  }

  /** A path into the subtree of the node at `q` extends `q`. */
  lemma {:induction false} SubConcat(n: Node, q: Path, r: Path)
    requires ValidIn(n, q) && ValidIn(Sub(n, q), r)
    ensures ValidIn(n, q + r) && Sub(n, q + r) == Sub(Sub(n, q), r)
    decreases q
  {
    if q == [] {
      assert q + r == r;
    } else {
      assert (q + r)[0] == q[0] && (q + r)[1..] == q[1..] + r;
      SubConcat(n.children[q[0]], q[1..], r);
    }
  }

  /** The trail to a node below an element `Sub(n, q)` is the trail to that element followed by the trail from its children. */
  lemma {:induction false} TagTrailSplit(n: Node, q: Path, r: Path)
    requires ValidIn(n, q) && Sub(n, q).Element? && r != [] && ValidIn(Sub(n, q), r) && Sub(Sub(n, q), r).Element?
    ensures ValidIn(n, q + r) && Sub(n, q + r).Element?
    ensures TagTrail(n, q + r) == TagTrail(n, q) + TagTrail(Sub(n, q).children[r[0]], r[1..])
    decreases q
  {
    SubConcat(n, q, r);
    if q == [] {
      assert q + r == r;
    } else {
      assert (q + r)[0] == q[0] && (q + r)[1..] == q[1..] + r;
      TagTrailSplit(n.children[q[0]], q[1..], r);
    }
  }

  /** A path below the element at `q` in `ns`, followed from that element's children, extends `q` into a path of `ns`. */
  lemma PathConcat(ns: seq<Node>, q: Path, p: Path)
    requires ValidPath(ns, q) && NodeAt(ns, q).Element? && ValidPath(NodeAt(ns, q).children, p)
    ensures ValidPath(ns, q + p) && NodeAt(ns, q + p) == NodeAt(NodeAt(ns, q).children, p)
  {
    var top, inner := ns[q[0]], NodeAt(ns, q);
    assert ValidIn(inner, p) && Sub(inner, p) == NodeAt(inner.children, p);
    SubConcat(top, q[1..], p);
    assert (q + p)[0] == q[0] && (q + p)[1..] == q[1..] + p;
  }

  /** The tags along such an extended path: those down to the element at `q`, then those below it. */
  lemma TagsAlongConcat(ns: seq<Node>, q: Path, p: Path)
    requires ValidPath(ns, q) && NodeAt(ns, q).Element? && ValidPath(NodeAt(ns, q).children, p)
    requires NodeAt(NodeAt(ns, q).children, p).Element?
    ensures ValidPath(ns, q + p) && NodeAt(ns, q + p).Element?
    ensures TagsAlong(ns, q + p) == TagsAlong(ns, q) + TagsAlong(NodeAt(ns, q).children, p)
  {
    var top, inner, q' := ns[q[0]], NodeAt(ns, q), q[1..];
    PathConcat(ns, q, p);
    assert (q + p)[0] == q[0] && (q + p)[1..] == q' + p;
    assert TagTrail(top, q' + p) == TagTrail(top, q') + TagTrail(inner.children[p[0]], p[1..]) by {
      assert inner == Sub(top, q');
      assert ValidIn(inner, p) && Sub(inner, p) == NodeAt(inner.children, p);
      TagTrailSplit(top, q', p);
    }
  }

  /** The text content of a node (the textContent of domutils): its text nodes' data, in document order; comments contribute nothing. */
  function TextContent(n: Node): (r: string)
    ensures n.Text? ==> r == n.data
    ensures n.Comment? ==> r == ""
    ensures n.Element? && |n.children| == 1 ==> r == TextContent(n.children[0])
    decreases n
  {
    match n
    case Element(_, _, cs) => TextOf(cs)
    case Text(d) => d
    case Comment(_) => ""
  }

  /** `.text()` of a selection: the text contents of its nodes, concatenated. */
  function TextOf(ns: seq<Node>): (r: string)
    ensures ns == [] ==> r == ""
    ensures |ns| == 1 ==> r == TextContent(ns[0])
    ensures (forall i | 0 <= i < |ns| :: !ns[i].Element? && !ns[i].Text?) ==> r == ""
    decreases ns
  {
    if ns == [] then "" else TextContent(ns[0]) + TextOf(ns[1..])
  }

  /** The text of a selection splits along the selection. */
  lemma {:induction false} TextOfAppend(a: seq<Node>, b: seq<Node>)
    ensures TextOf(a + b) == TextOf(a) + TextOf(b)
    decreases |a|
  {
    if a != [] {
      var c := a + b;
      assert c[0] == a[0];
      assert forall i | 0 <= i < |c| - 1 :: c[1..][i] == (a[1..] + b)[i];
      assert c[1..] == a[1..] + b;
      TextOfAppend(a[1..], b);
    } else {
      assert a + b == b;
    }
  }

  /** `.attr(name)` of a selection: the attribute of its first node; absent when the selection is empty, its first node is not an element, or the attribute is missing. */
  function Attr(sel: seq<Node>, name: string): (r: Option<string>)
    ensures r.Some? <==> |sel| > 0 && sel[0].Element? && name in sel[0].attrs
    ensures r.Some? ==> r.value == sel[0].attrs[name]
  {
    if |sel| > 0 && sel[0].Element? && name in sel[0].attrs then Some(sel[0].attrs[name]) else None
  }
}
