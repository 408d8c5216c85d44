/** The parsed WordprocessingML body as a read-only tree, and the three DOM
    operations the analyzer uses on it: `getElementsByTagName`, `textContent`
    and `getAttribute`. */
module Dom {

  datatype Option<T> = None | Some(value: T)

  /** A node of the parsed XML: an element, or a text node (CDATA sections are text nodes too). */
  datatype Node =
    | Element(name: string, attrs: map<string, string>, children: seq<Node>)
    | Text(data: string)

  /** The parsed document: the children of the document node. */
  datatype Document = Document(children: seq<Node>)

  /** A node is identified by the child indices leading to it from a sequence of
      siblings; paths give `===` its meaning. The empty path stands for the node
      that owns that sequence (for a Document, the document node itself). */
  type Path = seq<nat>

  function Kids(n: Node): seq<Node> {
    if n.Element? then n.children else []
  }

  predicate ValidIn(cs: seq<Node>, p: Path)
    decreases |p|
  {
    |p| > 0 && p[0] < |cs| && (|p| == 1 || ValidIn(Kids(cs[p[0]]), p[1..]))
  }

  function NodeIn(cs: seq<Node>, p: Path): Node
    requires ValidIn(cs, p)
    decreases |p|
  {
    if |p| == 1 then cs[p[0]] else NodeIn(Kids(cs[p[0]]), p[1..])
  }

  /** The ancestors of a node are nodes: every non-empty prefix of a valid path is valid. */
  lemma {:induction false} PrefixValid(cs: seq<Node>, p: Path, n: nat)
    requires ValidIn(cs, p) && n <= |p|
    ensures n == 0 || ValidIn(cs, p[..n])
    decreases |p|
  {
    if n > 1 {
      PrefixValid(Kids(cs[p[0]]), p[1..], n - 1);
      assert p[..n][1..] == p[1..][..n - 1];
    }
  }

  predicate HasTag(n: Node, t: string) {
    n.Element? && n.name == t
  }

  function Under(i: nat, ps: seq<Path>): (r: seq<Path>)
    ensures |r| == |ps| && forall k | 0 <= k < |ps| :: r[k] == [i] + ps[k]
  {
    seq(|ps|, k requires 0 <= k < |ps| => [i] + ps[k])
  }

  lemma UnderValid(cs: seq<Node>, i: nat, ps: seq<Path>, t: string)
    requires i < |cs|
    requires forall q | q in ps :: ValidIn(Kids(cs[i]), q) && HasTag(NodeIn(Kids(cs[i]), q), t)
    ensures forall p | p in Under(i, ps) :: ValidIn(cs, p) && p[0] == i && |p| > 1 && HasTag(NodeIn(cs, p), t)
  {
    forall p | p in Under(i, ps)
      ensures ValidIn(cs, p) && p[0] == i && |p| > 1 && HasTag(NodeIn(cs, p), t)
    {
      var k :| 0 <= k < |ps| && p == [i] + ps[k];
      assert ps[k] in ps;
      assert p[1..] == ps[k];
    }
  }

  /** `getElementsByTagName(t)` on a node whose children are cs, restricted to the
      subtrees of cs[i..]: the elements named exactly t (XML names are
      case-sensitive), each before its own descendants, in document order. */
  function TagPaths(cs: seq<Node>, t: string, i: nat): (r: seq<Path>)
    requires i <= |cs|
    decreases cs, |cs| - i, 1
    ensures forall p | p in r :: ValidIn(cs, p) && i <= p[0] && HasTag(NodeIn(cs, p), t)
  {
    if i == |cs| then [] else OwnPart(cs, t, i) + TagPaths(cs, t, i + 1)
  }

  /** The part of `TagPaths(cs, t, i)` that comes from cs[i] itself and its subtree. */
  function OwnPart(cs: seq<Node>, t: string, i: nat): (r: seq<Path>)
    requires i < |cs|
    decreases cs, |cs| - i, 0
    ensures forall p | p in r :: ValidIn(cs, p) && p[0] == i && HasTag(NodeIn(cs, p), t)
  {
    var inner := match cs[i]
      case Text(_) => []
      case Element(_, _, ch) => TagPaths(ch, t, 0);
    UnderValid(cs, i, inner, t);
    (if HasTag(cs[i], t) then [[i]] else []) + Under(i, inner)
  }

  function ElementsByTagName(cs: seq<Node>, t: string): (r: seq<Path>)
    ensures forall p | p in r :: ValidIn(cs, p) && HasTag(NodeIn(cs, p), t)
  {
    TagPaths(cs, t, 0)
  }

  /** `textContent`: the data of every text node below n, in document order. */
  function TextContent(n: Node): string
    decreases n, 1
  {
    match n
    case Text(d) => d
    case Element(_, _, ch) => ForestText(ch, 0)
  }

  function ForestText(cs: seq<Node>, i: nat): string
    requires i <= |cs|
    decreases cs, |cs| - i
  {
    if i == |cs| then "" else TextContent(cs[i]) + ForestText(cs, i + 1)
  }

  /** `getAttribute(key)`: None stands for `null`. */
  function GetAttribute(n: Node, key: string): Option<string> {
    if n.Element? && key in n.attrs then Some(n.attrs[key]) else None
  }

  // ---------------------------------------------------------------------------
  // What getElementsByTagName returns, stated without reference to how it walks.
  // ---------------------------------------------------------------------------

  lemma OwnPartHasSelf(cs: seq<Node>, t: string, i: nat)
    requires i < |cs| && HasTag(cs[i], t)
    ensures [i] in OwnPart(cs, t, i)
  {
    assert OwnPart(cs, t, i)[0] == [i];
  }

  lemma OwnPartHasDescendant(cs: seq<Node>, t: string, i: nat, ch: seq<Node>, q: Path)
    requires i < |cs| && cs[i].Element? && cs[i].children == ch
    requires q in TagPaths(ch, t, 0)
    ensures [i] + q in OwnPart(cs, t, i)
  {
    var inner := TagPaths(ch, t, 0);
    var k :| 0 <= k < |inner| && inner[k] == q;
    assert Under(i, inner)[k] == [i] + q;
  }

  lemma ChildPath(cs: seq<Node>, p: Path)
    requires ValidIn(cs, p) && |p| > 1
    ensures cs[p[0]].Element? && ValidIn(cs[p[0]].children, p[1..])
    ensures NodeIn(cs, p) == NodeIn(cs[p[0]].children, p[1..])
    ensures p == [p[0]] + p[1..]
  {
  }

  /** Every element named t below cs[i..] is in the list. */
  lemma {:induction false} TagPathsComplete(cs: seq<Node>, t: string, i: nat, p: Path)
    requires i <= |cs| && ValidIn(cs, p) && i <= p[0] && HasTag(NodeIn(cs, p), t)
    ensures p in TagPaths(cs, t, i)
    decreases cs, |cs| - i
  {
    if p[0] > i {
      TagPathsComplete(cs, t, i + 1, p);
    } else if |p| == 1 {
      assert p == [i];
      OwnPartHasSelf(cs, t, i);
    } else {
      ChildPath(cs, p);
      var ch := cs[i].children;
      TagPathsComplete(ch, t, 0, p[1..]);
      OwnPartHasDescendant(cs, t, i, ch, p[1..]);
    }
  }

  /** A path lies in the list exactly when it leads to an element named t. */
  lemma TagPathsExact(cs: seq<Node>, t: string, p: Path)
    ensures p in ElementsByTagName(cs, t) <==> ValidIn(cs, p) && HasTag(NodeIn(cs, p), t)
  {
    if ValidIn(cs, p) && HasTag(NodeIn(cs, p), t) {
      TagPathsComplete(cs, t, 0, p);
    }
  }

  /** Document order: p comes before q when p is a proper prefix of q (an ancestor
      is met before its descendants) or p branches off to an earlier sibling. */
  predicate Precedes(p: Path, q: Path)
    decreases |p|
  {
    |q| > 0 && (|p| == 0 || p[0] < q[0] || (p[0] == q[0] && Precedes(p[1..], q[1..])))
  }

  predicate InDocumentOrder(ps: seq<Path>) {
    forall a, b | 0 <= a < b < |ps| :: Precedes(ps[a], ps[b])
  }

  lemma ConcatInOrder(xs: seq<Path>, ys: seq<Path>)
    requires InDocumentOrder(xs) && InDocumentOrder(ys)
    requires forall x, y | x in xs && y in ys :: Precedes(x, y)
    ensures InDocumentOrder(xs + ys)
  {
    forall a, b | 0 <= a < b < |xs + ys| ensures Precedes((xs + ys)[a], (xs + ys)[b]) {
      if b < |xs| {
      } else if a >= |xs| {
        assert (xs + ys)[a] == ys[a - |xs|] && (xs + ys)[b] == ys[b - |xs|];
      } else {
        assert (xs + ys)[a] in xs && (xs + ys)[b] in ys;
      }
    }
  }

  lemma UnderInOrder(i: nat, ps: seq<Path>)
    requires InDocumentOrder(ps)
    ensures InDocumentOrder(Under(i, ps))
  {
    var us := Under(i, ps);
    forall a, b | 0 <= a < b < |us| ensures Precedes(us[a], us[b]) {
      assert us[a][1..] == ps[a] && us[b][1..] == ps[b];
    }
  }

  /** getElementsByTagName lists each matching element once, in document order. */
  lemma {:induction false} TagPathsInDocumentOrder(cs: seq<Node>, t: string, i: nat)
    requires i <= |cs|
    ensures InDocumentOrder(TagPaths(cs, t, i))
    decreases cs, |cs| - i, 1
  {
    if i < |cs| {
      var own := OwnPart(cs, t, i);
      var rest := TagPaths(cs, t, i + 1);
      OwnPartInDocumentOrder(cs, t, i);
      TagPathsInDocumentOrder(cs, t, i + 1);
      forall x, y | x in own && y in rest ensures Precedes(x, y) {
        assert x[0] == i && i + 1 <= y[0];
      }
      ConcatInOrder(own, rest);
    }
  }

  /** Child i itself comes before everything beneath it, which is in document order. */
  lemma {:induction false} OwnPartInDocumentOrder(cs: seq<Node>, t: string, i: nat)
    requires i < |cs|
    ensures InDocumentOrder(OwnPart(cs, t, i))
    decreases cs, |cs| - i, 0
  {
    var inner := match cs[i]
      case Text(_) => []
      case Element(_, _, ch) => TagPaths(ch, t, 0);
    match cs[i] {
      case Text(_) =>
      case Element(_, _, ch) => TagPathsInDocumentOrder(ch, t, 0);
    }
    var head: seq<Path> := if HasTag(cs[i], t) then [[i]] else [];
    var mid := Under(i, inner);
    UnderInOrder(i, inner);
    UnderValid(cs, i, inner, t);
    forall x, y | x in head && y in mid ensures Precedes(x, y) {
      assert y[0] == i && y[1..] != [];
      assert x[1..] == [];
    }
    ConcatInOrder(head, mid);
  }

  // ---------------------------------------------------------------------------
  // How many elements getElementsByTagName reports: an independent count.
  // ---------------------------------------------------------------------------

  /** Elements named t in the subtree rooted at n, n included. */
  function TagCount(n: Node, t: string): nat
    decreases n, 1
  {
    match n
    case Text(_) => 0
    case Element(name, _, ch) => (if name == t then 1 else 0) + ForestTagCount(ch, t, 0)
  }

  function ForestTagCount(cs: seq<Node>, t: string, i: nat): nat
    requires i <= |cs|
    decreases cs, |cs| - i
  {
    if i == |cs| then 0 else TagCount(cs[i], t) + ForestTagCount(cs, t, i + 1)
  }

  /** The `length` of the list is the number of elements named t, each counted once. */
  lemma {:induction false} TagPathsCount(cs: seq<Node>, t: string, i: nat)
    requires i <= |cs|
    ensures |TagPaths(cs, t, i)| == ForestTagCount(cs, t, i)
    decreases cs, |cs| - i, 1
  {
    if i < |cs| {
      OwnPartCount(cs, t, i);
      TagPathsCount(cs, t, i + 1);
    }
  }

  /** Child i contributes one path per element named t in its subtree. */
  lemma {:induction false} OwnPartCount(cs: seq<Node>, t: string, i: nat)
    requires i < |cs|
    ensures |OwnPart(cs, t, i)| == TagCount(cs[i], t)
    decreases cs, |cs| - i, 0
  {
    match cs[i] {
      case Text(_) =>
      case Element(_, _, ch) => TagPathsCount(ch, t, 0);
    }
  }
}
