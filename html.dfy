/**
  Search and traversal over a parsed HTML tag tree (html.go).

  A Go `*html.Node` reaches its following siblings through NextSibling and its
  children through FirstChild. A node handed to FindHTML or TraverseHTML is
  therefore modelled by its sibling chain: the node followed by its next
  siblings, in order; nil is the empty chain. The children of a
  node are the chain that starts at its FirstChild.
 */
module Html {
  import opened Wrappers

  datatype NodeType = ErrorNode | TextNode | DocumentNode | ElementNode | CommentNode | DoctypeNode | RawNode

  datatype Attribute = Attribute(key: string, val: string)

  datatype HNode = HNode(kind: NodeType, data: string, attrs: seq<Attribute>, children: seq<HNode>)

  type Chain = seq<HNode>

  /**
    html.Parse and html.Render of golang.org/x/net/html (WHATWG tree
    construction and serialisation) are outside this model: they are supplied
    as functions. Parse yields the document node.
   */
  datatype Codec = Codec(parse: string -> Result<HNode, string>, render: HNode -> Result<string, string>)

  predicate IsTag(n: HNode, tag: string) {
    n.kind == ElementNode && n.data == tag
  }

  /** Index of the first node of `chain` at or after `from` that is a `tag` element, or `|chain|`. */
  function FirstTagged(chain: Chain, tag: string, from: nat): (i: nat)
    requires from <= |chain|
    ensures from <= i <= |chain|
    ensures i < |chain| ==> IsTag(chain[i], tag)
    ensures forall k :: from <= k < i ==> !IsTag(chain[k], tag)
    decreases |chain| - from
  {
    if from == |chain| then from
    else if IsTag(chain[from], tag) then from
    else FirstTagged(chain, tag, from + 1)
  }

  /**
    The chain FindHTML returns: first the start node and all its following
    siblings are tried; only when none matches is each sibling's subtree
    searched, sibling by sibling.
   */
  function Find(chain: Chain, tag: string): Chain
    decreases chain, 1
  {
    var i := FirstTagged(chain, tag, 0);
    if i < |chain| then chain[i..] else FindBelow(chain, tag, 0)
  }

  /** The first match among the subtrees of chain[k..], sibling by sibling. */
  function FindBelow(chain: Chain, tag: string, k: nat): Chain
    decreases chain, 0, |chain| - k
  {
    if k >= |chain| then []
    else
      var r := Find(chain[k].children, tag);
      if r != [] then r else FindBelow(chain, tag, k + 1)
  }

  /** Some node of the chain, or of a subtree below it, is a `tag` element. */
  ghost predicate Occurs(chain: Chain, tag: string)
    decreases chain
  {
    exists k :: 0 <= k < |chain| && (IsTag(chain[k], tag) || Occurs(chain[k].children, tag))
  }

  /** `r` is a sibling chain somewhere in the forest `chain`: a suffix of it, or inside a subtree. */
  ghost predicate ChainIn(r: Chain, chain: Chain)
    decreases chain
  {
    (|r| <= |chain| && chain[|chain| - |r|..] == r)
    || exists k :: 0 <= k < |chain| && ChainIn(r, chain[k].children)
  }

  /**
    What FindHTML promises: the result is empty exactly when no `tag` element
    occurs in the chain or below it, and otherwise it is a chain of the
    searched forest that starts with a `tag` element.
   */
  lemma {:induction false} FindSound(chain: Chain, tag: string)
    ensures Find(chain, tag) == [] <==> !Occurs(chain, tag)
    ensures Find(chain, tag) != [] ==> IsTag(Find(chain, tag)[0], tag) && ChainIn(Find(chain, tag), chain)
    decreases chain, 1
  {
    var i := FirstTagged(chain, tag, 0);
    if i < |chain| {
      assert IsTag(chain[i], tag);
    } else {
      FindBelowSound(chain, tag, 0);
    }
  }

  lemma {:induction false} FindBelowSound(chain: Chain, tag: string, k: nat)
    requires k <= |chain|
    ensures FindBelow(chain, tag, k) == [] <==> forall j :: k <= j < |chain| ==> !Occurs(chain[j].children, tag)
    ensures FindBelow(chain, tag, k) != [] ==>
      IsTag(FindBelow(chain, tag, k)[0], tag) && ChainIn(FindBelow(chain, tag, k), chain)
    decreases chain, 0, |chain| - k
  {
    if k < |chain| {
      FindSound(chain[k].children, tag);
      FindBelowSound(chain, tag, k + 1);
    }
  }

  /**
    The search order: if any sibling in the chain is a `tag` element, the
    first such sibling (with its following siblings) is the result, whatever
    the subtrees hold; otherwise the result comes from the subtree of the
    first sibling whose subtree holds a match.
   */
  lemma {:induction false} FindOrder(chain: Chain, tag: string, k: nat)
    requires k < |chain|
    ensures IsTag(chain[k], tag) && (forall j :: 0 <= j < k ==> !IsTag(chain[j], tag))
      ==> Find(chain, tag) == chain[k..]
    ensures (forall j :: 0 <= j < |chain| ==> !IsTag(chain[j], tag))
      && Occurs(chain[k].children, tag)
      && (forall j :: 0 <= j < k ==> !Occurs(chain[j].children, tag))
      ==> Find(chain, tag) == Find(chain[k].children, tag)
  {
    if (forall j :: 0 <= j < |chain| ==> !IsTag(chain[j], tag))
      && Occurs(chain[k].children, tag)
      && (forall j :: 0 <= j < k ==> !Occurs(chain[j].children, tag))
    {
      FindBelowSkips(chain, tag, 0, k);
      FindSound(chain[k].children, tag);
    }
  }

  lemma {:induction false} FindBelowSkips(chain: Chain, tag: string, from: nat, k: nat)
    requires from <= k < |chain|
    requires forall j :: from <= j < k ==> !Occurs(chain[j].children, tag)
    ensures FindBelow(chain, tag, from) == FindBelow(chain, tag, k)
    decreases k - from
  {
    if from < k {
      assert Find(chain[from].children, tag) == [] by {
        FindSound(chain[from].children, tag);
      }
      FindBelowSkips(chain, tag, from + 1, k);
    }
  }

  /** FindHTML(node, tag): the two loops of html.go, the second one recursing into FirstChild. */
  method FindHTML(chain: Chain, tag: string) returns (r: Chain)
    ensures r == Find(chain, tag)
    ensures chain != [] && IsTag(chain[0], tag) ==> r == chain
    decreases chain, 1
  {
    var i := 0;
    while i < |chain|
      invariant 0 <= i <= |chain|
      invariant FirstTagged(chain, tag, 0) == FirstTagged(chain, tag, i)
    {
      if IsTag(chain[i], tag) {
        return chain[i..];
      }
      i := i + 1;
    }
    i := 0;
    while i < |chain|
      invariant 0 <= i <= |chain|
      invariant FindBelow(chain, tag, 0) == FindBelow(chain, tag, i)
    {
      r := FindHTML(chain[i].children, tag);
      if r != [] {
        return r;
      }
      i := i + 1;
    }
    return [];
  }

  /** The nodes of a chain in the order TraverseHTML visits them: a node, its subtree, then the next sibling. */
  function Preorder(chain: Chain): seq<HNode>
    decreases chain
  {
    if chain == [] then [] else [chain[0]] + Preorder(chain[0].children) + Preorder(chain[1..])
  }

  /**
    A visitor's calls, one per node in order, each seeing what the earlier
    calls left behind in `acc`; the first error ends the fold.
   */
  function Visit<A, E>(nodes: seq<HNode>, acc: A, visit: (A, HNode) -> Result<A, E>): Result<A, E>
  {
    if nodes == [] then Ok(acc)
    else match visit(acc, nodes[0])
      case Err(e) => Err(e)
      case Ok(a) => Visit(nodes[1..], a, visit)
  }

  /** Visiting `xs + ys` is visiting `xs`, then `ys` from where `xs` left off. */
  lemma {:induction false} VisitAppend<A, E>(xs: seq<HNode>, ys: seq<HNode>, acc: A, visit: (A, HNode) -> Result<A, E>)
    ensures Visit(xs + ys, acc, visit) ==
      match Visit(xs, acc, visit)
      case Err(e) => Err(e)
      case Ok(a) => Visit(ys, a, visit)
  {
    if xs == [] {
      assert xs + ys == ys;
    } else {
      assert (xs + ys)[0] == xs[0];
      assert (xs + ys)[1..] == xs[1..] + ys;
      match visit(acc, xs[0])
      case Err(e) =>
      case Ok(a) => VisitAppend(xs[1..], ys, a, visit);
    }
  }

  /** Once a visit fails, no later node is consulted: appending nodes does not change the outcome. */
  lemma StopsAtFirstError<A, E>(xs: seq<HNode>, later: seq<HNode>, acc: A, visit: (A, HNode) -> Result<A, E>)
    requires Visit(xs, acc, visit).Err?
    ensures Visit(xs + later, acc, visit) == Visit(xs, acc, visit)
  {
    VisitAppend(xs, later, acc, visit);
  }

  /** Visiting from the `i`th sibling on: that sibling, then its subtree, then the siblings after it. */
  lemma VisitStep<A, E>(chain: Chain, i: nat, a: A, visit: (A, HNode) -> Result<A, E>)
    requires i < |chain|
    ensures visit(a, chain[i]).Err? ==> Visit(Preorder(chain[i..]), a, visit) == Err(visit(a, chain[i]).error)
    ensures visit(a, chain[i]).Ok? ==>
      Visit(Preorder(chain[i..]), a, visit) ==
        (match Visit(Preorder(chain[i].children), visit(a, chain[i]).value, visit)
         case Err(e) => Err(e)
         case Ok(b) => Visit(Preorder(chain[i + 1..]), b, visit))
  {
    var here := chain[i..];
    assert here[0] == chain[i] && here[1..] == chain[i + 1..];
    var rest := Preorder(chain[i].children) + Preorder(chain[i + 1..]);
    assert Preorder(here) == [chain[i]] + rest;
    VisitAppend([chain[i]], rest, a, visit);
    if visit(a, chain[i]).Ok? {
      VisitAppend(Preorder(chain[i].children), Preorder(chain[i + 1..]), visit(a, chain[i]).value, visit);
    }
  }

  /**
    TraverseHTML(node, visit): visits every node of the sibling chain and its
    descendants in preorder and returns the first error the visitor reports.
    The visitor's effects are threaded through `acc`.
   */
  method TraverseHTML<A, E>(chain: Chain, acc: A, visit: (A, HNode) -> Result<A, E>) returns (res: Result<A, E>)
    ensures res == Visit(Preorder(chain), acc, visit)
    decreases chain
  {
    var a := acc;
    var i := 0;
    while i < |chain|
      invariant 0 <= i <= |chain|
      invariant Visit(Preorder(chain), acc, visit) == Visit(Preorder(chain[i..]), a, visit)
    {
      VisitStep(chain, i, a, visit);
      var r := visit(a, chain[i]);
      if r.Err? {
        return Err(r.error);
      }
      res := TraverseHTML(chain[i].children, r.value, visit);
      if res.Err? {
        return res;
      }
      a := res.value;
      i := i + 1;
    }
    return Ok(a);
  }

  /** The number of nodes in a chain and all subtrees below it. */
  function Size(chain: Chain): nat
    decreases chain
  {
    if chain == [] then 0 else 1 + Size(chain[0].children) + Size(chain[1..])
  }

  /** Every node is visited exactly once, each sibling before its subtree and the subtree before the next sibling. */
  lemma {:induction false} PreorderShape(chain: Chain)
    ensures |Preorder(chain)| == Size(chain)
    ensures chain != [] ==>
      Preorder(chain)[0] == chain[0] && Preorder(chain)[1 + Size(chain[0].children)..] == Preorder(chain[1..])
    decreases chain
  {
    if chain != [] {
      PreorderShape(chain[0].children);
      PreorderShape(chain[1..]);
      var p := Preorder(chain);
      assert p == [chain[0]] + Preorder(chain[0].children) + Preorder(chain[1..]);
      assert p[1 + Size(chain[0].children)..] == Preorder(chain[1..]);
    }
  }
}
