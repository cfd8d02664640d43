/**
  The content tree of tree.go. Nodes point at their children and at their
  parent; the model keeps them in an arena, a sequence `heap` in which a
  node's position stands for its address. The loader allocates nodes in the
  order it creates them, so a parent always comes before its children.
 */
module ContentTree {
  import opened Wrappers
  import opened Text
  import opened Html
  import opened Fs
  import Transform

  datatype Node = Node(id: string, title: string, path: Path, children: seq<nat>, parent: Option<nat>)

  datatype Tree = Tree(root: nat, heap: seq<Node>, index: map<string, nat>)

  /** Every child link leads to a node allocated after its parent. */
  ghost predicate ChildrenAfter(heap: seq<Node>) {
    forall i, k :: 0 <= i < |heap| && 0 <= k < |heap[i].children| ==> i < heap[i].children[k] < |heap|
  }

  // ---------------------------------------------------------------------
  // Walk

  /** One call of Walk's callback: the node and its depth. */
  datatype Step = Step(node: nat, depth: nat)

  /** The calls Walk makes from node `i` at `depth`: the node, then each child's walk one level deeper, in slice order. */
  function WalkOrder(heap: seq<Node>, i: nat, depth: nat): (s: seq<Step>)
    requires ChildrenAfter(heap) && i < |heap|
    ensures |s| >= 1 && s[0] == Step(i, depth)
    ensures forall k :: 0 <= k < |s| ==> s[k].node < |heap|
    decreases |heap| - i, 1, 0
  {
    [Step(i, depth)] + KidsOrder(heap, i, 0, depth + 1)
  }

  function KidsOrder(heap: seq<Node>, i: nat, k: nat, depth: nat): (s: seq<Step>)
    requires ChildrenAfter(heap) && i < |heap| && k <= |heap[i].children|
    ensures forall m :: 0 <= m < |s| ==> s[m].node < |heap|
    decreases |heap| - i, 0, |heap[i].children| - k
  {
    if k == |heap[i].children| then []
    else WalkOrder(heap, heap[i].children[k], depth) + KidsOrder(heap, i, k + 1, depth)
  }

  /** The callback's calls over `steps`, each seeing what the earlier ones left in `acc`; the first error ends them. */
  function Fold<A, E>(steps: seq<Step>, acc: A, fn: (A, nat, nat) -> Result<A, E>): Result<A, E>
  {
    if steps == [] then Ok(acc)
    else match fn(acc, steps[0].node, steps[0].depth)
      case Err(e) => Err(e)
      case Ok(a) => Fold(steps[1..], a, fn)
  }

  lemma {:induction false} FoldAppend<A, E>(xs: seq<Step>, ys: seq<Step>, acc: A, fn: (A, nat, nat) -> Result<A, E>)
    ensures Fold(xs + ys, acc, fn) ==
      match Fold(xs, acc, fn)
      case Err(e) => Err(e)
      case Ok(a) => Fold(ys, a, fn)
  {
    if xs == [] {
      assert xs + ys == ys;
    } else {
      assert (xs + ys)[0] == xs[0] && (xs + ys)[1..] == xs[1..] + ys;
      match fn(acc, xs[0].node, xs[0].depth)
      case Err(e) =>
      case Ok(a) => FoldAppend(xs[1..], ys, a, fn);
    }
  }

  /** Node.walkRec, the recursion of tree.go. */
  function WalkRec<A, E>(heap: seq<Node>, i: nat, depth: nat, acc: A, fn: (A, nat, nat) -> Result<A, E>): Result<A, E>
    requires ChildrenAfter(heap) && i < |heap|
    decreases |heap| - i, 1, 0
  {
    match fn(acc, i, depth)
    case Err(e) => Err(e)
    case Ok(a) => WalkChildren(heap, i, 0, depth + 1, a, fn)
  }

  function WalkChildren<A, E>(heap: seq<Node>, i: nat, k: nat, depth: nat, acc: A, fn: (A, nat, nat) -> Result<A, E>): Result<A, E>
    requires ChildrenAfter(heap) && i < |heap| && k <= |heap[i].children|
    decreases |heap| - i, 0, |heap[i].children| - k
  {
    if k == |heap[i].children| then Ok(acc)
    else match WalkRec(heap, heap[i].children[k], depth, acc, fn)
      case Err(e) => Err(e)
      case Ok(a) => WalkChildren(heap, i, k + 1, depth, a, fn)
  }

  lemma {:induction false} WalkRecIsFold<A, E>(heap: seq<Node>, i: nat, depth: nat, acc: A, fn: (A, nat, nat) -> Result<A, E>)
    requires ChildrenAfter(heap) && i < |heap|
    ensures WalkRec(heap, i, depth, acc, fn) == Fold(WalkOrder(heap, i, depth), acc, fn)
    decreases |heap| - i, 1, 0
  {
    var s := WalkOrder(heap, i, depth);
    assert s[1..] == KidsOrder(heap, i, 0, depth + 1);
    match fn(acc, i, depth)
    case Err(e) =>
    case Ok(a) => WalkChildrenIsFold(heap, i, 0, depth + 1, a, fn);
  }

  lemma {:induction false} WalkChildrenIsFold<A, E>(heap: seq<Node>, i: nat, k: nat, depth: nat, acc: A, fn: (A, nat, nat) -> Result<A, E>)
    requires ChildrenAfter(heap) && i < |heap| && k <= |heap[i].children|
    ensures WalkChildren(heap, i, k, depth, acc, fn) == Fold(KidsOrder(heap, i, k, depth), acc, fn)
    decreases |heap| - i, 0, |heap[i].children| - k
  {
    if k < |heap[i].children| {
      var c := heap[i].children[k];
      WalkRecIsFold(heap, c, depth, acc, fn);
      FoldAppend(WalkOrder(heap, c, depth), KidsOrder(heap, i, k + 1, depth), acc, fn);
      match WalkRec(heap, c, depth, acc, fn)
      case Err(e) =>
      case Ok(a) => WalkChildrenIsFold(heap, i, k + 1, depth, a, fn);
    }
  }

  /**
    Node.Walk: nothing is called on a nil node; otherwise the callback runs on
    the calls of WalkOrder from depth 0, in that order, and the first error it
    returns ends the walk.
   */
  function Walk<A, E>(heap: seq<Node>, root: Option<nat>, acc: A, fn: (A, nat, nat) -> Result<A, E>): (r: Result<A, E>)
    requires ChildrenAfter(heap) && (root.Some? ==> root.value < |heap|)
    ensures r == if root.None? then Ok(acc) else Fold(WalkOrder(heap, root.value, 0), acc, fn)
  {
    if root.None? then Ok(acc)
    else
      WalkRecIsFold(heap, root.value, 0, acc, fn);
      WalkRec(heap, root.value, 0, acc, fn)
  }

  /** Some earlier call of the walk is on a parent of step `p`, one level up. */
  ghost predicate ParentBefore(heap: seq<Node>, s: seq<Step>, p: nat)
    requires p < |s|
  {
    exists m :: 0 <= m < p && s[m].node < |heap| && s[m].depth + 1 == s[p].depth && s[p].node in heap[s[m].node].children
  }

  /** Step `p` is on a child of `i` at `depth`, or on a child of an earlier step. */
  ghost predicate Placed(heap: seq<Node>, s: seq<Step>, p: nat, i: nat, depth: nat)
    requires p < |s| && i < |heap|
  {
    (s[p].depth == depth && s[p].node in heap[i].children) || ParentBefore(heap, s, p)
  }

  /**
    The walk is a preorder: it starts at the receiver with depth 0, and
    every later call is on a child of an earlier call, one level deeper.
   */
  lemma {:induction false} WalkOrderIsPreorder(heap: seq<Node>, i: nat, depth: nat)
    requires ChildrenAfter(heap) && i < |heap|
    ensures WalkOrder(heap, i, depth)[0] == Step(i, depth)
    ensures forall p :: 0 < p < |WalkOrder(heap, i, depth)| ==> ParentBefore(heap, WalkOrder(heap, i, depth), p)
    decreases |heap| - i, 1, 0
  {
    var s := WalkOrder(heap, i, depth);
    var kids := KidsOrder(heap, i, 0, depth + 1);
    KidsOrderIsPreorder(heap, i, 0, depth + 1);
    forall p | 0 < p < |s|
      ensures ParentBefore(heap, s, p)
    {
      assert s[p] == kids[p - 1];
      if kids[p - 1].depth == depth + 1 && kids[p - 1].node in heap[i].children {
        assert s[0].node == i;
      } else {
        assert Placed(heap, kids, p - 1, i, depth + 1);
        assert ParentBefore(heap, kids, p - 1);
        var m :| 0 <= m < p - 1 && kids[m].node < |heap| && kids[m].depth + 1 == kids[p - 1].depth && kids[p - 1].node in heap[kids[m].node].children;
        assert s[m + 1] == kids[m];
      }
    }
  }

  lemma {:induction false} KidsOrderIsPreorder(heap: seq<Node>, i: nat, k: nat, depth: nat)
    requires ChildrenAfter(heap) && i < |heap| && k <= |heap[i].children|
    ensures forall p :: 0 <= p < |KidsOrder(heap, i, k, depth)| ==> Placed(heap, KidsOrder(heap, i, k, depth), p, i, depth)
    decreases |heap| - i, 0, |heap[i].children| - k
  {
    if k < |heap[i].children| {
      var c := heap[i].children[k];
      var w := WalkOrder(heap, c, depth);
      var rest := KidsOrder(heap, i, k + 1, depth);
      var s := KidsOrder(heap, i, k, depth);
      WalkOrderIsPreorder(heap, c, depth);
      KidsOrderIsPreorder(heap, i, k + 1, depth);
      forall p | 0 <= p < |s|
        ensures Placed(heap, s, p, i, depth)
      {
        if p == 0 {
          assert s[0] == w[0];
        } else if p < |w| {
          assert s[p] == w[p];
          assert ParentBefore(heap, w, p);
          var m :| 0 <= m < p && w[m].node < |heap| && w[m].depth + 1 == w[p].depth && w[p].node in heap[w[m].node].children;
          assert s[m] == w[m];
        } else {
          assert s[p] == rest[p - |w|];
          assert Placed(heap, rest, p - |w|, i, depth);
          if !(rest[p - |w|].depth == depth && rest[p - |w|].node in heap[i].children) {
            assert ParentBefore(heap, rest, p - |w|);
            var m :| 0 <= m < p - |w| && rest[m].node < |heap| && rest[m].depth + 1 == rest[p - |w|].depth && rest[p - |w|].node in heap[rest[m].node].children;
            assert s[m + |w|] == rest[m];
          }
        }
      }
    }
  }

  // ---------------------------------------------------------------------
  // Loading

  datatype LoadError =
    | ParseError(name: string, msg: string)
    | ReadFailed(name: string)     // the match is a directory: reading it fails
    | NoArticle(name: string)
    | NoDataTitle(name: string)
    | InvalidPath(name: string)    // fs.Stat refuses the stem "" or ".."
    | SelfReference(name: string)  // the stem "." names the directory being loaded
    | EmptyTree

  /** A loader's result: the arena grown by the new nodes, and the new top-level nodes in creation order. */
  datatype Loaded = Loaded(heap: seq<Node>, ids: seq<nat>)

  /** `after` keeps every node of `before` and may add more. */
  ghost predicate Extends(before: seq<Node>, after: seq<Node>) {
    |before| <= |after| && forall k :: 0 <= k < |before| ==> after[k] == before[k]
  }

  /** A name the glob "*.html" matches. */
  predicate IsDocument(name: string) {
    HasSuffix(name, ".html")
  }

  /** fs.Glob(fsys, "*.html"): the entries whose name ends in ".html", directories included, in listing order. */
  function Glob(listing: seq<Entry>): (m: seq<Entry>)
    ensures forall k :: 0 <= k < |m| ==> m[k] in listing && IsDocument(m[k].name)
    ensures forall e :: e in listing && IsDocument(e.name) ==> e in m
  {
    if listing == [] then []
    else (if IsDocument(listing[0].name) then [listing[0]] else []) + Glob(listing[1..])
  }

  /** Index of the first attribute at or after `k` whose key is `key`, or `|attrs|` when there is none. */
  function KeyFrom(attrs: seq<Attribute>, key: string, k: nat): (j: nat)
    requires k <= |attrs|
    ensures k <= j <= |attrs|
    ensures j < |attrs| ==> attrs[j].key == key
    ensures forall m :: k <= m < j ==> attrs[m].key != key
    decreases |attrs| - k
  {
    if k == |attrs| then k
    else if attrs[k].key == key then k
    else KeyFrom(attrs, key, k + 1)
  }

  /** The value of the first `data-title` attribute. */
  function DataTitle(attrs: seq<Attribute>): (r: Option<string>)
    ensures r.None? <==> forall k :: 0 <= k < |attrs| ==> attrs[k].key != "data-title"
    ensures r.Some? ==> Attribute("data-title", r.value) in attrs
  {
    var j := KeyFrom(attrs, "data-title", 0);
    if j == |attrs| then None
    else
      assert attrs[j] == Attribute("data-title", attrs[j].val);
      Some(attrs[j].val)
  }

  /** The first `data-title` attribute gives the title, whatever follows it. */
  lemma DataTitleIsFirst(attrs: seq<Attribute>, k: nat)
    requires k < |attrs| && attrs[k].key == "data-title"
    requires forall m :: 0 <= m < k ==> attrs[m].key != "data-title"
    ensures DataTitle(attrs) == Some(attrs[k].val)
  {
  }

  /** The name of a document without its extension: the entry that holds its children. */
  function Stem(name: string): string {
    TrimSuffix(name, Ext(name))
  }

  /**
    LoadTreeNodeInfo: a node for the document `e` of the directory `dir`, its
    identifier the name's last space-separated field without ".html", its
    title the first data-title of the first article element. The node has no
    links yet.
   */
  function NodeInfo(codec: Codec, e: Entry, dir: Path): (r: Result<Node, LoadError>)
    ensures r.Ok? ==> r.value.path == dir + [e.name] && r.value.children == [] && r.value.parent == None
    ensures r.Ok? ==> r.value.id == Transform.TransformFileName(TrimSuffix(e.name, ".html"))
  {
    var id := Transform.TransformFileName(TrimSuffix(e.name, ".html"));
    if e.Dir? then Err(ReadFailed(e.name))
    else match codec.parse(e.data)
      case Err(msg) => Err(ParseError(e.name, msg))
      case Ok(doc) =>
        var article := Find([doc], "article");
        if article == [] then Err(NoArticle(e.name))
        else match DataTitle(article[0].attrs)
          case None => Err(NoDataTitle(e.name))
          case Some(title) => Ok(Node(id, title, dir + [e.name], [], None))
  }

  /**
    A loaded node's title is the data-title of an article element of its
    document, and the load fails for want of an article exactly when the
    document has none.
   */
  lemma NodeInfoTitle(codec: Codec, e: Entry, dir: Path)
    ensures NodeInfo(codec, e, dir).Ok? ==>
      && e.File? && codec.parse(e.data).Ok?
      && Find([codec.parse(e.data).value], "article") != []
      && IsTag(Find([codec.parse(e.data).value], "article")[0], "article")
      && ChainIn(Find([codec.parse(e.data).value], "article"), [codec.parse(e.data).value])
      && Attribute("data-title", NodeInfo(codec, e, dir).value.title) in Find([codec.parse(e.data).value], "article")[0].attrs
    ensures NodeInfo(codec, e, dir) == Err(NoArticle(e.name)) <==>
      e.File? && codec.parse(e.data).Ok? && !Occurs([codec.parse(e.data).value], "article")
  {
    if e.File? && codec.parse(e.data).Ok? {
      FindSound([codec.parse(e.data).value], "article");
    }
  }

  /**
    LoadTreeNode: the node for `e`, linked to `parent`, and, when an entry
    named after its stem sits beside it in `listing`, the documents of that
    directory as its children. A stem that names a file gives no children.
   */
  function LoadNode(codec: Codec, listing: seq<Entry>, e: Entry, dir: Path, parent: Option<nat>, heap: seq<Node>): (r: Result<Loaded, LoadError>)
    ensures r.Ok? ==> Extends(heap, r.value.heap) && |r.value.heap| > |heap| && r.value.ids == [|heap|]
    decreases listing, 0, 1
  {
    match NodeInfo(codec, e, dir)
    case Err(err) => Err(err)
    case Ok(info) =>
      var stem := Stem(e.name);
      if stem == "" || stem == ".." then Err(InvalidPath(e.name))
      else if stem == "." then Err(SelfReference(e.name))
      else
        var heap1 := heap + [info.(parent := parent)];
        var r := LoadBelow(codec, listing, stem, dir, heap1);
        BelowExtends(heap, heap1, r);
        r
  }

  /** What LoadBelow promises about the arena with the new node, restated for the arena before it. */
  lemma BelowExtends(heap: seq<Node>, heap1: seq<Node>, r: Result<Loaded, LoadError>)
    requires |heap1| == |heap| + 1 && heap1[..|heap|] == heap
    requires r.Ok? ==> Extends(heap1[..|heap1| - 1], r.value.heap) && |r.value.heap| >= |heap1| && r.value.ids == [|heap1| - 1]
    ensures r.Ok? ==> Extends(heap, r.value.heap) && |r.value.heap| > |heap| && r.value.ids == [|heap|]
  {
  }

  /**
    The second half of LoadTreeNode, once the new node is the last of `heap`:
    the documents of the directory `stem` of `listing`, if there is one,
    become its children.
   */
  function LoadBelow(codec: Codec, listing: seq<Entry>, stem: string, dir: Path, heap: seq<Node>): (r: Result<Loaded, LoadError>)
    requires |heap| >= 1
    ensures r.Ok? ==> Extends(heap[..|heap| - 1], r.value.heap) && |r.value.heap| >= |heap| && r.value.ids == [|heap| - 1]
    decreases listing, 0, 0
  {
    var i := |heap| - 1;
    var j := IndexOf(listing, stem);
    if j == |listing| || listing[j].File? then Ok(Loaded(heap, [i]))
    else match LoadNodes(codec, listing[j].entries, dir + [stem], Some(i), heap)
      case Err(err) => Err(err)
      case Ok(sub) => Ok(Loaded(sub.heap[i := sub.heap[i].(children := sub.ids)], [i]))
  }

  /** A document whose stem names no directory beside it stays a leaf: nothing below it is loaded. */
  lemma LoadBelowLeaf(codec: Codec, listing: seq<Entry>, stem: string, dir: Path, heap: seq<Node>)
    requires |heap| >= 1
    requires forall k :: 0 <= k < |listing| && listing[k].name == stem ==> listing[k].File?
    ensures LoadBelow(codec, listing, stem, dir, heap) == Ok(Loaded(heap, [|heap| - 1]))
  {
  }

  /** LoadTreeNodesFromDir: the documents of `listing`, one after another; the first failure ends the load. */
  function LoadNodes(codec: Codec, listing: seq<Entry>, dir: Path, parent: Option<nat>, heap: seq<Node>): (r: Result<Loaded, LoadError>)
    ensures r.Ok? ==> Extends(heap, r.value.heap)
    decreases listing, 2
  {
    LoadFrom(codec, listing, Glob(listing), dir, parent, heap)
  }

  function LoadFrom(codec: Codec, listing: seq<Entry>, matches: seq<Entry>, dir: Path, parent: Option<nat>, heap: seq<Node>): (r: Result<Loaded, LoadError>)
    ensures r.Ok? ==> Extends(heap, r.value.heap)
    decreases listing, 1, |matches|
  {
    if matches == [] then Ok(Loaded(heap, []))
    else match LoadNode(codec, listing, matches[0], dir, parent, heap)
      case Err(err) => Err(err)
      case Ok(first) =>
        match LoadFrom(codec, listing, matches[1..], dir, parent, first.heap)
        case Err(err) => Err(err)
        case Ok(rest) => Ok(Loaded(rest.heap, first.ids + rest.ids))
  }

  /** The ids loaded so far, put in front of what the rest of the load gives. */
  function Then(ids: seq<nat>, r: Result<Loaded, LoadError>): Result<Loaded, LoadError> {
    match r
    case Err(err) => Err(err)
    case Ok(l) => Ok(Loaded(l.heap, ids + l.ids))
  }

  /** LoadTreeNodeInfo, with FindHTML and the loop over the article's attributes. */
  method LoadTreeNodeInfo(codec: Codec, e: Entry, dir: Path) returns (r: Result<Node, LoadError>)
    ensures r == NodeInfo(codec, e, dir)
  {
    var id := Transform.TransformFileName(TrimSuffix(e.name, ".html"));
    if e.Dir? {
      return Err(ReadFailed(e.name));
    }
    var markup := codec.parse(e.data);
    if markup.Err? {
      return Err(ParseError(e.name, markup.error));
    }
    var article := FindHTML([markup.value], "article");
    if article == [] {
      return Err(NoArticle(e.name));
    }
    var title := FirstDataTitle(article[0].attrs);
    if title.None? {
      return Err(NoDataTitle(e.name));
    }
    return Ok(Node(id, title.value, dir + [e.name], [], None));
  }

  /** The loop of LoadTreeNodeInfo over the article's attributes: the first data-title wins. */
  method FirstDataTitle(attrs: seq<Attribute>) returns (r: Option<string>)
    ensures r == DataTitle(attrs)
  {
    for k := 0 to |attrs|
      invariant KeyFrom(attrs, "data-title", 0) == KeyFrom(attrs, "data-title", k)
    {
      if attrs[k].key == "data-title" {
        return Some(attrs[k].val);
      }
    }
    return None;
  }

  /** LoadTreeNode: create the node, link it to its parent, then load the directory named after its stem. */
  method LoadTreeNode(codec: Codec, listing: seq<Entry>, e: Entry, dir: Path, parent: Option<nat>, heap: seq<Node>) returns (r: Result<Loaded, LoadError>)
    ensures r == LoadNode(codec, listing, e, dir, parent, heap)
    decreases listing, 0, 1
  {
    var info := LoadTreeNodeInfo(codec, e, dir);
    if info.Err? {
      return Err(info.error);
    }
    var i := |heap|;
    var h := heap + [info.value.(parent := parent)];
    var stem := Stem(e.name);
    if stem == "" || stem == ".." {
      return Err(InvalidPath(e.name));
    }
    if stem == "." {
      return Err(SelfReference(e.name));
    }
    var j := IndexOf(listing, stem);
    if j == |listing| || listing[j].File? {
      return Ok(Loaded(h, [i]));
    }
    var children := LoadTreeNodesFromDir(codec, listing[j].entries, dir + [stem], Some(i), h);
    if children.Err? {
      return Err(children.error);
    }
    h := children.value.heap;
    h := h[i := h[i].(children := children.value.ids)];
    return Ok(Loaded(h, [i]));
  }

  /** LoadTreeNodesFromDir: the loop over the glob's matches. */
  method LoadTreeNodesFromDir(codec: Codec, listing: seq<Entry>, dir: Path, parent: Option<nat>, heap: seq<Node>) returns (r: Result<Loaded, LoadError>)
    ensures r == LoadNodes(codec, listing, dir, parent, heap)
    decreases listing, 2
  {
    var pathes := Glob(listing);
    var h := heap;
    var nodes: seq<nat> := [];
    assert pathes[0..] == pathes;
    ThenNothing(LoadFrom(codec, listing, pathes, dir, parent, heap));
    for k := 0 to |pathes|
      invariant LoadNodes(codec, listing, dir, parent, heap) == Then(nodes, LoadFrom(codec, listing, pathes[k..], dir, parent, h))
    {
      var node := LoadTreeNode(codec, listing, pathes[k], dir, parent, h);
      LoadFromFirst(codec, listing, pathes, k, dir, parent, h, nodes);
      if node.Err? {
        return Err(node.error);
      }
      h := node.value.heap;
      nodes := nodes + node.value.ids;
    }
    assert pathes[|pathes|..] == [];
    assert nodes + [] == nodes;
    return Ok(Loaded(h, nodes));
  }

  /** One step of LoadTreeNodesFromDir: the load of match k decides whether the rest is loaded. */
  lemma LoadFromFirst(codec: Codec, listing: seq<Entry>, matches: seq<Entry>, k: nat, dir: Path, parent: Option<nat>, heap: seq<Node>, ids: seq<nat>)
    requires k < |matches|
    ensures var first := LoadNode(codec, listing, matches[k], dir, parent, heap);
      first.Err? ==> Then(ids, LoadFrom(codec, listing, matches[k..], dir, parent, heap)) == Err(first.error)
    ensures var first := LoadNode(codec, listing, matches[k], dir, parent, heap);
      first.Ok? ==> Then(ids, LoadFrom(codec, listing, matches[k..], dir, parent, heap))
                    == Then(ids + first.value.ids, LoadFrom(codec, listing, matches[k + 1..], dir, parent, first.value.heap))
  {
    assert matches[k..][0] == matches[k] && matches[k..][1..] == matches[k + 1..];
    var first := LoadNode(codec, listing, matches[k], dir, parent, heap);
    if first.Ok? {
      LoadFromStep(codec, listing, matches[k..], dir, parent, heap);
      ThenThen(ids, first.value.ids, LoadFrom(codec, listing, matches[k + 1..], dir, parent, first.value.heap));
    }
  }

  lemma ThenNothing(r: Result<Loaded, LoadError>)
    ensures Then([], r) == r
  {
    if r.Ok? {
      assert [] + r.value.ids == r.value.ids;
    }
  }

  lemma ThenThen(a: seq<nat>, b: seq<nat>, r: Result<Loaded, LoadError>)
    ensures Then(a, Then(b, r)) == Then(a + b, r)
  {
    if r.Ok? {
      assert a + (b + r.value.ids) == (a + b) + r.value.ids;
    }
  }

  /** One document loaded, the rest of the matches still to go. */
  lemma LoadFromStep(codec: Codec, listing: seq<Entry>, matches: seq<Entry>, dir: Path, parent: Option<nat>, heap: seq<Node>)
    requires matches != [] && LoadNode(codec, listing, matches[0], dir, parent, heap).Ok?
    ensures var first := LoadNode(codec, listing, matches[0], dir, parent, heap).value;
      LoadFrom(codec, listing, matches, dir, parent, heap) == Then(first.ids, LoadFrom(codec, listing, matches[1..], dir, parent, first.heap))
  {
  }

  // ---------------------------------------------------------------------
  // The shape of a loaded tree

  /** The directory that holds the children of the document at `path`: the one named after its stem, beside it. */
  function ChildDir(path: Path): Path
    requires |path| >= 1
  {
    path[..|path| - 1] + [Stem(path[|path| - 1])]
  }

  /**
    Node `j` of an arena loaded from position `from` under `parent`: its path
    names a ".html" document, its parent is `parent` or a node loaded before
    it, and each child comes after it, points back to it, and lives in the
    directory named after its stem.
   */
  ghost predicate NodeLinked(h: seq<Node>, from: nat, parent: Option<nat>, j: nat)
    requires j < |h|
  {
    && |h[j].path| >= 1 && IsDocument(h[j].path[|h[j].path| - 1])
    && (h[j].parent == parent || (h[j].parent.Some? && from <= h[j].parent.value < j))
    && forall k :: 0 <= k < |h[j].children| ==>
         && j < h[j].children[k] < |h|
         && h[h[j].children[k]].parent == Some(j)
         && |h[h[j].children[k]].path| >= 1
         && h[h[j].children[k]].path[..|h[h[j].children[k]].path| - 1] == ChildDir(h[j].path)
  }

  ghost predicate Linked(h: seq<Node>, from: nat, parent: Option<nat>) {
    forall j :: from <= j < |h| ==> NodeLinked(h, from, parent, j)
  }

  /** The top-level nodes of a load: new nodes under `parent`, documents of `dir`. */
  ghost predicate TopLevel(h: seq<Node>, ids: seq<nat>, from: nat, parent: Option<nat>, dir: Path) {
    forall k :: 0 <= k < |ids| ==>
      && from <= ids[k] < |h|
      && h[ids[k]].parent == parent
      && |h[ids[k]].path| >= 1
      && h[ids[k]].path[..|h[ids[k]].path| - 1] == dir
  }

  /** A new childless node under `parent` starts a linked region of its own. */
  lemma LinkLeaf(heap: seq<Node>, node: Node, parent: Option<nat>, dir: Path, name: string)
    requires node.path == dir + [name] && IsDocument(name)
    requires node.children == [] && node.parent == parent
    ensures Linked(heap + [node], |heap|, parent)
    ensures TopLevel(heap + [node], [|heap|], |heap|, parent, dir)
  {
    var h := heap + [node];
    assert h[|heap|].path[..|h[|heap|].path| - 1] == dir;
    assert NodeLinked(h, |heap|, parent, |heap|);
  }

  /** Giving node `i` the children loaded right after it keeps the region from `i` linked. */
  lemma LinkParent(h: seq<Node>, i: nat, ids: seq<nat>, parent: Option<nat>, dir: Path)
    requires i < |h| && h[i].parent == parent
    requires |h[i].path| >= 1 && IsDocument(h[i].path[|h[i].path| - 1]) && h[i].path[..|h[i].path| - 1] == dir
    requires Linked(h, i + 1, Some(i))
    requires TopLevel(h, ids, i + 1, Some(i), ChildDir(h[i].path))
    ensures Linked(h[i := h[i].(children := ids)], i, parent)
    ensures TopLevel(h[i := h[i].(children := ids)], [i], i, parent, dir)
  {
    var h' := h[i := h[i].(children := ids)];
    assert |h'| == |h| && h'[i] == h[i].(children := ids);
    assert forall n :: 0 <= n < |h| && n != i ==> h'[n] == h[n];
    forall m | i <= m < |h'|
      ensures NodeLinked(h', i, parent, m)
    {
      if m == i {
        LinkParentSelf(h, h', i, ids, parent);
      } else {
        assert NodeLinked(h, i + 1, Some(i), m);
        LinkParentBelow(h, h', i, m);
      }
    }
    assert h'[i].path == h[i].path && h'[i].parent == parent;
  }

  /** The parent node itself, with its new children. */
  lemma LinkParentSelf(h: seq<Node>, h': seq<Node>, i: nat, ids: seq<nat>, parent: Option<nat>)
    requires i < |h| == |h'| && h[i].parent == parent
    requires h'[i] == h[i].(children := ids) && forall m :: 0 <= m < |h| && m != i ==> h'[m] == h[m]
    requires |h[i].path| >= 1 && IsDocument(h[i].path[|h[i].path| - 1])
    requires TopLevel(h, ids, i + 1, Some(i), ChildDir(h[i].path))
    ensures NodeLinked(h', i, parent, i)
  {
    forall k | 0 <= k < |ids|
      ensures i < ids[k] < |h'| && h'[ids[k]] == h[ids[k]]
    {
    }
  }

  /** A node loaded below the parent is untouched, and so are its children. */
  lemma LinkParentBelow(h: seq<Node>, h': seq<Node>, i: nat, m: nat)
    requires i < m < |h| == |h'|
    requires forall n :: 0 <= n < |h| && n != i ==> h'[n] == h[n]
    requires NodeLinked(h, i + 1, Some(i), m)
    ensures NodeLinked(h', i, Some(i), m)
  {
    forall k | 0 <= k < |h'[m].children|
      ensures h'[h'[m].children[k]] == h[h[m].children[k]]
    {
    }
  }

  /** Two loads one after the other make one linked region, their top-level nodes in order. */
  lemma LinkSequence(h0: seq<Node>, h1: seq<Node>, h2: seq<Node>, ids1: seq<nat>, ids2: seq<nat>, parent: Option<nat>, dir: Path)
    requires |h0| <= |h1| && Extends(h1, h2)
    requires Linked(h1, |h0|, parent) && Linked(h2, |h1|, parent)
    requires TopLevel(h1, ids1, |h0|, parent, dir) && TopLevel(h2, ids2, |h1|, parent, dir)
    ensures Linked(h2, |h0|, parent)
    ensures TopLevel(h2, ids1 + ids2, |h0|, parent, dir)
  {
    forall m | |h0| <= m < |h2|
      ensures NodeLinked(h2, |h0|, parent, m)
    {
      if m < |h1| {
        assert NodeLinked(h1, |h0|, parent, m);
        assert h2[m] == h1[m];
        forall k | 0 <= k < |h2[m].children|
          ensures h2[h2[m].children[k]] == h1[h1[m].children[k]]
        {
        }
      } else {
        assert NodeLinked(h2, |h1|, parent, m);
      }
    }
    var ids := ids1 + ids2;
    forall k | 0 <= k < |ids|
      ensures |h0| <= ids[k] < |h2| && h2[ids[k]].parent == parent && |h2[ids[k]].path| >= 1 && h2[ids[k]].path[..|h2[ids[k]].path| - 1] == dir
    {
      if k < |ids1| {
        assert ids[k] == ids1[k] && h2[ids[k]] == h1[ids[k]];
      } else {
        assert ids[k] == ids2[k - |ids1|];
      }
    }
  }

  lemma {:induction false} LoadNodeLinked(codec: Codec, listing: seq<Entry>, e: Entry, dir: Path, parent: Option<nat>, heap: seq<Node>)
    requires IsDocument(e.name)
    requires LoadNode(codec, listing, e, dir, parent, heap).Ok?
    ensures Linked(LoadNode(codec, listing, e, dir, parent, heap).value.heap, |heap|, parent)
    ensures TopLevel(LoadNode(codec, listing, e, dir, parent, heap).value.heap, LoadNode(codec, listing, e, dir, parent, heap).value.ids, |heap|, parent, dir)
    decreases listing, 0, 1
  {
    var node := NodeInfo(codec, e, dir).value.(parent := parent);
    var stem := Stem(e.name);
    assert LoadNode(codec, listing, e, dir, parent, heap) == LoadBelow(codec, listing, stem, dir, heap + [node]);
    LinkLeaf(heap, node, parent, dir, e.name);
    LoadBelowLinked(codec, listing, stem, dir, parent, heap, node, e.name);
  }

  lemma {:induction false} LoadBelowLinked(codec: Codec, listing: seq<Entry>, stem: string, dir: Path, parent: Option<nat>, heap: seq<Node>, node: Node, name: string)
    requires node.path == dir + [name] && IsDocument(name) && stem == Stem(name)
    requires node.children == [] && node.parent == parent
    requires LoadBelow(codec, listing, stem, dir, heap + [node]).Ok?
    requires Linked(heap + [node], |heap|, parent) && TopLevel(heap + [node], [|heap|], |heap|, parent, dir)
    ensures Linked(LoadBelow(codec, listing, stem, dir, heap + [node]).value.heap, |heap|, parent)
    ensures TopLevel(LoadBelow(codec, listing, stem, dir, heap + [node]).value.heap, [|heap|], |heap|, parent, dir)
    decreases listing, 0, 0
  {
    var i := |heap|;
    var heap1 := heap + [node];
    var j := IndexOf(listing, stem);
    if !(j == |listing| || listing[j].File?) {
      var sub := LoadNodes(codec, listing[j].entries, dir + [stem], Some(i), heap1).value;
      LoadNodesLinked(codec, listing[j].entries, dir + [stem], Some(i), heap1);
      assert sub.heap[i] == node;
      assert ChildDir(node.path) == dir + [stem];
      LinkParent(sub.heap, i, sub.ids, parent, dir);
    }
  }

  lemma {:induction false} LoadFromLinked(codec: Codec, listing: seq<Entry>, matches: seq<Entry>, dir: Path, parent: Option<nat>, heap: seq<Node>)
    requires forall k :: 0 <= k < |matches| ==> IsDocument(matches[k].name)
    requires LoadFrom(codec, listing, matches, dir, parent, heap).Ok?
    ensures Linked(LoadFrom(codec, listing, matches, dir, parent, heap).value.heap, |heap|, parent)
    ensures TopLevel(LoadFrom(codec, listing, matches, dir, parent, heap).value.heap, LoadFrom(codec, listing, matches, dir, parent, heap).value.ids, |heap|, parent, dir)
    decreases listing, 1, |matches|
  {
    if matches != [] {
      LoadFromParts(codec, listing, matches, dir, parent, heap);
      DocumentsTail(matches);
      var first := LoadNode(codec, listing, matches[0], dir, parent, heap).value;
      LoadNodeLinked(codec, listing, matches[0], dir, parent, heap);
      LoadFromLinked(codec, listing, matches[1..], dir, parent, first.heap);
      LoadFromCons(codec, listing, matches, dir, parent, heap);
    } else {
      assert Linked(heap, |heap|, parent);
    }
  }

  /** A successful load of several documents loaded the first one and then the rest. */
  lemma LoadFromParts(codec: Codec, listing: seq<Entry>, matches: seq<Entry>, dir: Path, parent: Option<nat>, heap: seq<Node>)
    requires matches != [] && LoadFrom(codec, listing, matches, dir, parent, heap).Ok?
    ensures LoadNode(codec, listing, matches[0], dir, parent, heap).Ok?
    ensures LoadFrom(codec, listing, matches[1..], dir, parent, LoadNode(codec, listing, matches[0], dir, parent, heap).value.heap).Ok?
  {
  }

  lemma DocumentsTail(matches: seq<Entry>)
    requires matches != [] && forall k :: 0 <= k < |matches| ==> IsDocument(matches[k].name)
    ensures IsDocument(matches[0].name) && forall k :: 0 <= k < |matches[1..]| ==> IsDocument(matches[1..][k].name)
  {
    assert forall k :: 0 <= k < |matches[1..]| ==> matches[1..][k] == matches[k + 1];
  }

  /** The links of the first document's load and of the rest's load join into the links of the whole. */
  lemma LoadFromCons(codec: Codec, listing: seq<Entry>, matches: seq<Entry>, dir: Path, parent: Option<nat>, heap: seq<Node>)
    requires matches != [] && LoadNode(codec, listing, matches[0], dir, parent, heap).Ok?
    requires var first := LoadNode(codec, listing, matches[0], dir, parent, heap).value;
      && LoadFrom(codec, listing, matches[1..], dir, parent, first.heap).Ok?
      && Linked(first.heap, |heap|, parent) && TopLevel(first.heap, first.ids, |heap|, parent, dir)
      && Linked(LoadFrom(codec, listing, matches[1..], dir, parent, first.heap).value.heap, |first.heap|, parent)
      && TopLevel(LoadFrom(codec, listing, matches[1..], dir, parent, first.heap).value.heap, LoadFrom(codec, listing, matches[1..], dir, parent, first.heap).value.ids, |first.heap|, parent, dir)
    ensures LoadFrom(codec, listing, matches, dir, parent, heap).Ok?
    ensures Linked(LoadFrom(codec, listing, matches, dir, parent, heap).value.heap, |heap|, parent)
    ensures TopLevel(LoadFrom(codec, listing, matches, dir, parent, heap).value.heap, LoadFrom(codec, listing, matches, dir, parent, heap).value.ids, |heap|, parent, dir)
  {
    var first := LoadNode(codec, listing, matches[0], dir, parent, heap).value;
    var rest := LoadFrom(codec, listing, matches[1..], dir, parent, first.heap).value;
    LoadFromStep(codec, listing, matches, dir, parent, heap);
    LinkSequence(heap, first.heap, rest.heap, first.ids, rest.ids, parent, dir);
  }

  /** Every node a load creates is linked both ways to its parent and children, and the children of `name.html` are the documents of the directory `name` beside it. */
  lemma {:induction false} LoadNodesLinked(codec: Codec, listing: seq<Entry>, dir: Path, parent: Option<nat>, heap: seq<Node>)
    requires LoadNodes(codec, listing, dir, parent, heap).Ok?
    ensures Linked(LoadNodes(codec, listing, dir, parent, heap).value.heap, |heap|, parent)
    ensures TopLevel(LoadNodes(codec, listing, dir, parent, heap).value.heap, LoadNodes(codec, listing, dir, parent, heap).value.ids, |heap|, parent, dir)
    decreases listing, 2
  {
    LoadFromLinked(codec, listing, Glob(listing), dir, parent, heap);
  }

  /**
    The new node at the end of `heap` keeps everything but its children. It
    gets exactly the documents loaded from the entry named `stem` when that
    entry is a directory, in the order that load gives them; when there is no
    such entry or it is a file, nothing below it is loaded.
   */
  lemma LoadBelowNode(codec: Codec, listing: seq<Entry>, stem: string, dir: Path, heap: seq<Node>)
    requires |heap| >= 1 && LoadBelow(codec, listing, stem, dir, heap).Ok?
    ensures var h := LoadBelow(codec, listing, stem, dir, heap).value.heap;
      h[|heap| - 1] == heap[|heap| - 1].(children := h[|heap| - 1].children)
    ensures var j := IndexOf(listing, stem);
      j < |listing| && listing[j].Dir? ==>
        && LoadNodes(codec, listing[j].entries, dir + [stem], Some(|heap| - 1), heap).Ok?
        && LoadBelow(codec, listing, stem, dir, heap).value.heap[|heap| - 1].children
             == LoadNodes(codec, listing[j].entries, dir + [stem], Some(|heap| - 1), heap).value.ids
    ensures var j := IndexOf(listing, stem);
      !(j < |listing| && listing[j].Dir?) ==> LoadBelow(codec, listing, stem, dir, heap).value.heap == heap
  {
    var i := |heap| - 1;
    var j := IndexOf(listing, stem);
    if j < |listing| && listing[j].Dir? {
      var sub := LoadNodes(codec, listing[j].entries, dir + [stem], Some(i), heap).value;
      assert sub.heap[i] == heap[i];
    }
  }

  /**
    LoadTreeNode puts the node for `e` at position `|heap|`: NodeInfo's node
    with `parent` as its parent. It has children only when the entry named
    after its stem is a directory, and then they are what LoadBelowNode says.
   */
  lemma LoadNodeChildren(codec: Codec, listing: seq<Entry>, e: Entry, dir: Path, parent: Option<nat>, heap: seq<Node>)
    requires LoadNode(codec, listing, e, dir, parent, heap).Ok?
    ensures NodeInfo(codec, e, dir).Ok?
    ensures var h := LoadNode(codec, listing, e, dir, parent, heap).value.heap;
      h[|heap|] == NodeInfo(codec, e, dir).value.(parent := parent, children := h[|heap|].children)
    ensures var h := LoadNode(codec, listing, e, dir, parent, heap).value.heap;
      h[|heap|].children != [] ==> IndexOf(listing, Stem(e.name)) < |listing| && listing[IndexOf(listing, Stem(e.name))].Dir?
    ensures LoadNode(codec, listing, e, dir, parent, heap)
      == LoadBelow(codec, listing, Stem(e.name), dir, heap + [NodeInfo(codec, e, dir).value.(parent := parent)])
  {
    var node := NodeInfo(codec, e, dir).value.(parent := parent);
    var heap1 := heap + [node];
    assert LoadNode(codec, listing, e, dir, parent, heap) == LoadBelow(codec, listing, Stem(e.name), dir, heap1);
    LoadBelowNode(codec, listing, Stem(e.name), dir, heap1);
  }

  /**
    `ids` are new nodes of `h`, created from `from` on, in increasing order,
    the k-th of them for the k-th entry of `matches`, a document of `dir`.
   */
  ghost predicate InOrder(h: seq<Node>, ids: seq<nat>, from: nat, dir: Path, matches: seq<Entry>) {
    && |ids| == |matches|
    && (forall k :: 0 <= k < |ids| ==> from <= ids[k] < |h| && h[ids[k]].path == dir + [matches[k].name])
    && forall k, m :: 0 <= k < m < |ids| ==> ids[k] < ids[m]
  }

  /** The first match's node, followed by the rest's nodes loaded after it, keeps the order of the matches. */
  lemma OrderSequence(h1: seq<Node>, h2: seq<Node>, i: nat, rest: seq<nat>, dir: Path, matches: seq<Entry>)
    requires matches != [] && i < |h1| && Extends(h1, h2)
    requires h1[i].path == dir + [matches[0].name]
    requires InOrder(h2, rest, |h1|, dir, matches[1..])
    ensures InOrder(h2, [i] + rest, i, dir, matches)
  {
    var ids := [i] + rest;
    forall k | 0 <= k < |ids|
      ensures i <= ids[k] < |h2| && h2[ids[k]].path == dir + [matches[k].name]
    {
      if k > 0 {
        assert ids[k] == rest[k - 1] && matches[k] == matches[1..][k - 1];
      }
    }
    forall k, m | 0 <= k < m < |ids|
      ensures ids[k] < ids[m]
    {
      assert ids[m] == rest[m - 1];
      if k > 0 {
        assert ids[k] == rest[k - 1];
      }
    }
  }

  /** LoadTreeNodesFromDir makes one top-level node per match, in the order of the matches. */
  lemma {:induction false} LoadFromOrder(codec: Codec, listing: seq<Entry>, matches: seq<Entry>, dir: Path, parent: Option<nat>, heap: seq<Node>)
    requires LoadFrom(codec, listing, matches, dir, parent, heap).Ok?
    ensures InOrder(LoadFrom(codec, listing, matches, dir, parent, heap).value.heap, LoadFrom(codec, listing, matches, dir, parent, heap).value.ids, |heap|, dir, matches)
    decreases |matches|
  {
    if matches != [] {
      LoadFromParts(codec, listing, matches, dir, parent, heap);
      var first := LoadNode(codec, listing, matches[0], dir, parent, heap).value;
      LoadNodeChildren(codec, listing, matches[0], dir, parent, heap);
      LoadFromOrder(codec, listing, matches[1..], dir, parent, first.heap);
      LoadFromStep(codec, listing, matches, dir, parent, heap);
      var rest := LoadFrom(codec, listing, matches[1..], dir, parent, first.heap).value;
      OrderSequence(first.heap, rest.heap, |heap|, rest.ids, dir, matches);
    }
  }

  /**
    The documents of a directory load in glob order: the k-th top-level node
    is the node of the k-th entry of `listing` whose name ends in ".html".
   */
  lemma LoadNodesOrder(codec: Codec, listing: seq<Entry>, dir: Path, parent: Option<nat>, heap: seq<Node>)
    requires LoadNodes(codec, listing, dir, parent, heap).Ok?
    ensures InOrder(LoadNodes(codec, listing, dir, parent, heap).value.heap, LoadNodes(codec, listing, dir, parent, heap).value.ids, |heap|, dir, Glob(listing))
  {
    LoadFromOrder(codec, listing, Glob(listing), dir, parent, heap);
  }

  lemma LinkedChildrenAfter(h: seq<Node>)
    requires Linked(h, 0, None)
    ensures ChildrenAfter(h)
  {
    forall i, k | 0 <= i < |h| && 0 <= k < |h[i].children|
      ensures i < h[i].children[k] < |h|
    {
      assert NodeLinked(h, 0, None, i);
    }
  }

  // ---------------------------------------------------------------------
  // LoadTree and the index

  /**
    A node's ID once the tree is loaded: its path with the cache directory
    trimmed off, so '/' followed by the '/'-joined names, every backslash
    replaced by '/'.
   */
  function IdOf(path: Path): (id: string)
    ensures |id| >= 1 && id[0] == '/'
  {
    ReplaceChar("/" + Join(path, '/'), '\\', '/')
  }

  datatype Indexed = Indexed(heap: seq<Node>, index: map<string, nat>)

  function Assign(acc: Indexed, i: nat): Indexed {
    if i < |acc.heap| then
      var id := IdOf(acc.heap[i].path);
      Indexed(acc.heap[i := acc.heap[i].(id := id)], acc.index[id := i])
    else acc
  }

  /** The callback LoadTree walks the tree with: give the node its ID and enter it in the index. */
  function AssignId(acc: Indexed, i: nat, depth: nat): Result<Indexed, LoadError> {
    Ok(Assign(acc, i))
  }

  function AssignIds(steps: seq<Step>, acc: Indexed): Indexed {
    if steps == [] then acc else AssignIds(steps[1..], Assign(acc, steps[0].node))
  }

  lemma {:induction false} FoldAssignId(steps: seq<Step>, acc: Indexed)
    ensures Fold(steps, acc, AssignId) == Ok(AssignIds(steps, acc))
  {
    if steps != [] {
      FoldAssignId(steps[1..], Assign(acc, steps[0].node));
    }
  }

  /**
    LoadTree: load the cache directory; the first top-level document is the
    root, and walking from it every node gets its ID and its index entry.
    A cache without a top-level document gives EmptyTree.
   */
  function LoadedTree(codec: Codec, cache: seq<Entry>): Result<Tree, LoadError>
  {
    match LoadNodes(codec, cache, [], None, [])
    case Err(err) => Err(err)
    case Ok(l) =>
      if l.ids == [] then Err(EmptyTree)
      else
        LoadNodesLinked(codec, cache, [], None, []);
        LinkedChildrenAfter(l.heap);
        var root := l.ids[0];
        FoldAssignId(WalkOrder(l.heap, root, 0), Indexed(l.heap, map[]));
        var w := Walk(l.heap, Some(root), Indexed(l.heap, map[]), AssignId).value;
        Ok(Tree(root, w.heap, w.index))
  }

  method LoadTree(codec: Codec, cache: seq<Entry>) returns (r: Result<Tree, LoadError>)
    ensures r == LoadedTree(codec, cache)
  {
    var nodes := LoadTreeNodesFromDir(codec, cache, [], None, []);
    if nodes.Err? {
      return Err(nodes.error);
    }
    if |nodes.value.ids| == 0 {
      return Err(EmptyTree);
    }
    var heap := nodes.value.heap;
    var root := nodes.value.ids[0];
    LoadNodesLinked(codec, cache, [], None, []);
    LinkedChildrenAfter(heap);
    FoldAssignId(WalkOrder(heap, root, 0), Indexed(heap, map[]));
    var w := Walk(heap, Some(root), Indexed(heap, map[]), AssignId);
    return Ok(Tree(root, w.value.heap, w.value.index));
  }

  /** The nodes a sequence of walk steps visits. */
  ghost function Nodes(steps: seq<Step>): set<nat> {
    set k | 0 <= k < |steps| :: steps[k].node
  }

  lemma NodesSplit(steps: seq<Step>)
    requires steps != []
    ensures Nodes(steps) == {steps[0].node} + Nodes(steps[1..])
  {
    forall j | j in Nodes(steps)
      ensures j == steps[0].node || j in Nodes(steps[1..])
    {
      var k :| 0 <= k < |steps| && steps[k].node == j;
      if k > 0 {
        assert steps[1..][k - 1] == steps[k];
      }
    }
    forall j | j in Nodes(steps[1..])
      ensures j in Nodes(steps)
    {
      var k :| 0 <= k < |steps[1..]| && steps[1..][k].node == j;
      assert steps[k + 1] == steps[1..][k];
    }
  }

  /** Every index entry leads to the node whose ID is the key, and that ID is the one its path gives. */
  ghost predicate IndexSound(x: Indexed) {
    forall key :: key in x.index ==>
      x.index[key] < |x.heap| && x.heap[x.index[key]].id == key && key == IdOf(x.heap[x.index[key]].path)
  }

  lemma AssignSound(acc: Indexed, i: nat)
    requires i < |acc.heap| && IndexSound(acc)
    ensures IndexSound(Assign(acc, i))
  {
    var a := Assign(acc, i);
    var id := IdOf(acc.heap[i].path);
    forall key | key in a.index
      ensures a.index[key] < |a.heap| && a.heap[a.index[key]].id == key && key == IdOf(a.heap[a.index[key]].path)
    {
      if key != id {
        var m := acc.index[key];
        assert a.heap[m] == acc.heap[m];
      }
    }
  }

  /** What the walk's callbacks over `steps` did to `acc`, giving `r`. */
  ghost predicate AssignedFrom(acc: Indexed, steps: seq<Step>, r: Indexed) {
    && |r.heap| == |acc.heap|
    && (forall j :: 0 <= j < |r.heap| ==>
          r.heap[j] == if j in Nodes(steps) then acc.heap[j].(id := IdOf(acc.heap[j].path)) else acc.heap[j])
    && (forall key :: key in acc.index ==> key in r.index)
    && (forall key :: key in r.index ==> (key in acc.index && r.index[key] == acc.index[key]) || r.index[key] in Nodes(steps))
    && (forall j :: j in Nodes(steps) && j < |acc.heap| ==> IdOf(acc.heap[j].path) in r.index)
  }

  lemma {:induction false} AssignIdsEffect(steps: seq<Step>, acc: Indexed)
    requires forall k :: 0 <= k < |steps| ==> steps[k].node < |acc.heap|
    requires IndexSound(acc)
    ensures IndexSound(AssignIds(steps, acc))
    ensures AssignedFrom(acc, steps, AssignIds(steps, acc))
  {
    if steps == [] {
      assert Nodes(steps) == {};
    } else {
      var i := steps[0].node;
      var a := Assign(acc, i);
      var r := AssignIds(steps, acc);
      AssignSound(acc, i);
      AssignIdsEffect(steps[1..], a);
      NodesSplit(steps);
      forall j | 0 <= j < |r.heap|
        ensures r.heap[j] == if j in Nodes(steps) then acc.heap[j].(id := IdOf(acc.heap[j].path)) else acc.heap[j]
      {
        assert a.heap[j].path == acc.heap[j].path;
      }
      forall j | j in Nodes(steps) && j < |acc.heap|
        ensures IdOf(acc.heap[j].path) in r.index
      {
        assert a.heap[j].path == acc.heap[j].path;
      }
    }
  }

  /** The keys of the nodes in `nodes` are pairwise different. */
  ghost predicate KeysDistinct(heap: seq<Node>, nodes: set<nat>) {
    forall a, b :: a in nodes && b in nodes && a < |heap| && b < |heap| && IdOf(heap[a].path) == IdOf(heap[b].path) ==> a == b
  }

  lemma {:induction false} AssignIdsInjective(steps: seq<Step>, acc: Indexed, seen: set<nat>)
    requires forall k :: 0 <= k < |steps| ==> steps[k].node < |acc.heap|
    requires forall j :: j in seen ==> j < |acc.heap| && IdOf(acc.heap[j].path) in acc.index && acc.index[IdOf(acc.heap[j].path)] == j
    requires KeysDistinct(acc.heap, seen + Nodes(steps))
    ensures forall j :: j in seen + Nodes(steps) && j < |acc.heap| ==>
      IdOf(acc.heap[j].path) in AssignIds(steps, acc).index && AssignIds(steps, acc).index[IdOf(acc.heap[j].path)] == j
  {
    if steps == [] {
      assert Nodes(steps) == {};
    } else {
      var i := steps[0].node;
      var a := Assign(acc, i);
      var seen' := seen + {i};
      assert seen + Nodes(steps) == seen' + Nodes(steps[1..]) by {
        NodesSplit(steps);
      }
      AssignKeepsIndex(acc, i, seen, Nodes(steps[1..]));
      assert forall k :: 0 <= k < |steps[1..]| ==> steps[1..][k].node < |a.heap| by {
        assert forall k :: 0 <= k < |steps[1..]| ==> steps[1..][k] == steps[k + 1];
      }
      AssignIdsInjective(steps[1..], a, seen');
      var r := AssignIds(steps[1..], a);
      assert AssignIds(steps, acc) == r;
      forall j | j in seen + Nodes(steps) && j < |acc.heap|
        ensures IdOf(acc.heap[j].path) in r.index && r.index[IdOf(acc.heap[j].path)] == j
      {
        assert j in seen' + Nodes(steps[1..]) && a.heap[j].path == acc.heap[j].path;
      }
    }
  }

  /** One assignment keeps every path, enters `i`, and leaves the entries of the nodes already seen in place. */
  lemma AssignKeepsIndex(acc: Indexed, i: nat, seen: set<nat>, later: set<nat>)
    requires i < |acc.heap|
    requires forall j :: j in seen ==> j < |acc.heap| && IdOf(acc.heap[j].path) in acc.index && acc.index[IdOf(acc.heap[j].path)] == j
    requires KeysDistinct(acc.heap, seen + ({i} + later))
    ensures |Assign(acc, i).heap| == |acc.heap|
    ensures forall j :: 0 <= j < |acc.heap| ==> Assign(acc, i).heap[j].path == acc.heap[j].path
    ensures forall j :: j in seen + {i} ==> j < |Assign(acc, i).heap| && IdOf(Assign(acc, i).heap[j].path) in Assign(acc, i).index && Assign(acc, i).index[IdOf(Assign(acc, i).heap[j].path)] == j
    ensures KeysDistinct(Assign(acc, i).heap, (seen + {i}) + later)
  {
    var a := Assign(acc, i);
    assert forall j :: 0 <= j < |acc.heap| ==> a.heap[j].path == acc.heap[j].path;
    assert (seen + {i}) + later == seen + ({i} + later);
  }

  /** A loaded tree: the root is a node without parent and the arena is linked. */
  ghost predicate Valid(t: Tree) {
    t.root < |t.heap| && Linked(t.heap, 0, None) && t.heap[t.root].parent == None
  }

  /** The nodes reachable from the root: the ones Walk visits. */
  ghost function Reach(t: Tree): set<nat>
    requires Valid(t)
  {
    LinkedChildrenAfter(t.heap);
    Nodes(WalkOrder(t.heap, t.root, 0))
  }

  /** Every key leads to a reachable node whose ID is the key, the path-derived one. */
  ghost predicate IndexMatches(t: Tree)
    requires Valid(t)
  {
    forall key :: key in t.index ==>
      && t.index[key] in Reach(t) && t.index[key] < |t.heap|
      && t.heap[t.index[key]].id == key && key == IdOf(t.heap[t.index[key]].path)
  }

  /** Every reachable node has its path-derived ID, and that ID is a key. */
  ghost predicate IndexCovers(t: Tree)
    requires Valid(t)
  {
    forall j :: j in Reach(t) && j < |t.heap| ==> t.heap[j].id == IdOf(t.heap[j].path) && t.heap[j].id in t.index
  }

  /** Two arenas that differ at most in the IDs of their nodes. */
  ghost predicate SameShape(h1: seq<Node>, h2: seq<Node>) {
    |h1| == |h2| && forall j :: 0 <= j < |h1| ==> h1[j].path == h2[j].path && h1[j].children == h2[j].children && h1[j].parent == h2[j].parent
  }

  lemma {:induction false} WalkOrderSameShape(h1: seq<Node>, h2: seq<Node>, i: nat, depth: nat)
    requires ChildrenAfter(h1) && ChildrenAfter(h2) && i < |h1| == |h2|
    requires forall j :: 0 <= j < |h1| ==> h1[j].children == h2[j].children
    ensures WalkOrder(h1, i, depth) == WalkOrder(h2, i, depth)
    decreases |h1| - i, 1, 0
  {
    KidsOrderSameShape(h1, h2, i, 0, depth + 1);
  }

  lemma {:induction false} KidsOrderSameShape(h1: seq<Node>, h2: seq<Node>, i: nat, k: nat, depth: nat)
    requires ChildrenAfter(h1) && ChildrenAfter(h2) && i < |h1| == |h2|
    requires forall j :: 0 <= j < |h1| ==> h1[j].children == h2[j].children
    requires k <= |h1[i].children|
    ensures KidsOrder(h1, i, k, depth) == KidsOrder(h2, i, k, depth)
    decreases |h1| - i, 0, |h1[i].children| - k
  {
    if k < |h1[i].children| {
      WalkOrderSameShape(h1, h2, h1[i].children[k], depth);
      KidsOrderSameShape(h1, h2, i, k + 1, depth);
    }
  }

  /** Linkage looks only at paths, parents and children, not at IDs. */
  lemma LinkedIgnoresIds(h1: seq<Node>, h2: seq<Node>)
    requires SameShape(h1, h2) && Linked(h1, 0, None)
    ensures Linked(h2, 0, None)
  {
    forall j | 0 <= j < |h2|
      ensures NodeLinked(h2, 0, None, j)
    {
      assert NodeLinked(h1, 0, None, j);
    }
  }

  lemma {:induction false} JoinLength(parts: seq<string>, c: char)
    requires |parts| >= 1
    ensures |Join(parts, c)| >= |parts[|parts| - 1]|
  {
    if |parts| > 1 {
      JoinLength(parts[1..], c);
    }
  }

  /** The ID of a ".html" document is never "/", the key of the list page. */
  lemma IdNotSlash(path: Path)
    requires |path| >= 1 && IsDocument(path[|path| - 1])
    ensures IdOf(path) != "/"
  {
    JoinLength(path, '/');
  }

  /** The arena LoadTree walks: the load before IDs are assigned. */
  ghost function Unwalked(codec: Codec, cache: seq<Entry>): Loaded
    requires LoadedTree(codec, cache).Ok?
  {
    LoadNodes(codec, cache, [], None, []).value
  }

  /**
    `t` is what LoadTree makes of the load `l`: the root is the first
    top-level node, and `t`'s arena and index are what the walk from the
    root assigned.
   */
  ghost predicate WalkedFrom(l: Loaded, t: Tree) {
    && Linked(l.heap, 0, None) && ChildrenAfter(l.heap)
    && |l.ids| >= 1 && t.root == l.ids[0] && t.root < |l.heap| && l.heap[t.root].parent == None
    && Indexed(t.heap, t.index) == AssignIds(WalkOrder(l.heap, t.root, 0), Indexed(l.heap, map[]))
  }

  lemma LoadedTreeFromWalk(codec: Codec, cache: seq<Entry>)
    requires LoadedTree(codec, cache).Ok?
    ensures WalkedFrom(Unwalked(codec, cache), LoadedTree(codec, cache).value)
  {
    var t := LoadedTree(codec, cache).value;
    var l := Unwalked(codec, cache);
    LoadNodesLinked(codec, cache, [], None, []);
    LinkedChildrenAfter(l.heap);
    FoldAssignId(WalkOrder(l.heap, t.root, 0), Indexed(l.heap, map[]));
    assert TopLevel(l.heap, l.ids, 0, None, []);
  }

  /** The walk assigns IDs and index entries and changes nothing else. */
  lemma WalkedEffect(l: Loaded, t: Tree)
    requires WalkedFrom(l, t)
    ensures IndexSound(Indexed(t.heap, t.index))
    ensures AssignedFrom(Indexed(l.heap, map[]), WalkOrder(l.heap, t.root, 0), Indexed(t.heap, t.index))
  {
    var order := WalkOrder(l.heap, t.root, 0);
    AssignIdsEffect(order, Indexed(l.heap, map[]));
  }

  lemma WalkedValid(l: Loaded, t: Tree)
    requires WalkedFrom(l, t)
    ensures Valid(t)
    ensures Reach(t) == Nodes(WalkOrder(l.heap, t.root, 0))
  {
    assert SameShape(l.heap, t.heap) by {
      WalkedEffect(l, t);
    }
    LinkedIgnoresIds(l.heap, t.heap);
    LinkedChildrenAfter(t.heap);
    WalkOrderSameShape(l.heap, t.heap, t.root, 0);
  }

  lemma WalkedIndex(l: Loaded, t: Tree)
    requires WalkedFrom(l, t)
    ensures Valid(t) && IndexMatches(t) && IndexCovers(t)
  {
    var order := WalkOrder(l.heap, t.root, 0);
    var acc := Indexed(l.heap, map[]);
    WalkedEffect(l, t);
    WalkedValid(l, t);
    forall key | key in t.index
      ensures t.index[key] in Reach(t)
    {
      assert key !in acc.index;
    }
    forall j | j in Reach(t) && j < |t.heap|
      ensures t.heap[j].id == IdOf(t.heap[j].path) && t.heap[j].id in t.index
    {
      assert j in Nodes(order);
      assert t.heap[j] == l.heap[j].(id := IdOf(l.heap[j].path));
    }
  }

  lemma WalkedNoSlash(l: Loaded, t: Tree)
    requires WalkedFrom(l, t)
    ensures "/" !in t.index
  {
    assert IndexSound(Indexed(t.heap, t.index)) by {
      WalkedEffect(l, t);
    }
    assert Linked(t.heap, 0, None) by {
      WalkedValid(l, t);
    }
    forall key | key in t.index
      ensures key != "/"
    {
      var m := t.index[key];
      assert m < |t.heap| && key == IdOf(t.heap[m].path);
      assert NodeLinked(t.heap, 0, None, m);
      IdNotSlash(t.heap[m].path);
    }
  }

  lemma WalkedKeys(l: Loaded, t: Tree)
    requires WalkedFrom(l, t)
    requires Valid(t) && KeysDistinct(t.heap, Reach(t))
    ensures forall j :: j in Reach(t) && j < |t.heap| ==> t.heap[j].id in t.index && t.index[t.heap[j].id] == j
  {
    WalkedValid(l, t);
    WalkedEffect(l, t);
    KeysFromAssign(WalkOrder(l.heap, t.root, 0), Indexed(l.heap, map[]), Indexed(t.heap, t.index));
  }

  /** Assigning IDs from an empty index, over nodes with distinct IDs, indexes every one of them. */
  lemma KeysFromAssign(order: seq<Step>, acc: Indexed, r: Indexed)
    requires forall k :: 0 <= k < |order| ==> order[k].node < |acc.heap|
    requires acc.index == map[]
    requires r == AssignIds(order, acc)
    requires AssignedFrom(acc, order, r)
    requires KeysDistinct(r.heap, Nodes(order))
    ensures forall j :: j in Nodes(order) && j < |r.heap| ==> r.heap[j].id in r.index && r.index[r.heap[j].id] == j
  {
    assert {} + Nodes(order) == Nodes(order);
    assert forall j :: 0 <= j < |r.heap| ==> r.heap[j].path == acc.heap[j].path;
    assert KeysDistinct(acc.heap, {} + Nodes(order));
    AssignIdsInjective(order, acc, {});
    forall j | j in Nodes(order) && j < |r.heap|
      ensures r.heap[j].id in r.index && r.index[r.heap[j].id] == j
    {
      assert r.heap[j].id == IdOf(acc.heap[j].path);
    }
  }


  lemma LoadedTreeValid(codec: Codec, cache: seq<Entry>)
    requires LoadedTree(codec, cache).Ok?
    ensures Valid(LoadedTree(codec, cache).value)
  {
    LoadedTreeFromWalk(codec, cache);
    WalkedValid(Unwalked(codec, cache), LoadedTree(codec, cache).value);
  }

  /**
    LoadTree's result is a linked tree whose index holds exactly the nodes
    reachable from the root, each under its path-derived ID.
   */
  lemma LoadedTreeIndex(codec: Codec, cache: seq<Entry>)
    requires LoadedTree(codec, cache).Ok?
    ensures Valid(LoadedTree(codec, cache).value)
    ensures IndexMatches(LoadedTree(codec, cache).value)
    ensures IndexCovers(LoadedTree(codec, cache).value)
  {
    LoadedTreeFromWalk(codec, cache);
    WalkedIndex(Unwalked(codec, cache), LoadedTree(codec, cache).value);
  }

  /** "/", the key of the list page, is never a document's key. */
  lemma LoadedTreeNoSlash(codec: Codec, cache: seq<Entry>)
    requires LoadedTree(codec, cache).Ok?
    ensures "/" !in LoadedTree(codec, cache).value.index
  {
    LoadedTreeFromWalk(codec, cache);
    WalkedNoSlash(Unwalked(codec, cache), LoadedTree(codec, cache).value);
  }

  /** When no two reachable documents share an ID, the index maps each ID back to its own node. */
  lemma LoadedTreeKeys(codec: Codec, cache: seq<Entry>)
    requires LoadedTree(codec, cache).Ok?
    requires Valid(LoadedTree(codec, cache).value)
    requires KeysDistinct(LoadedTree(codec, cache).value.heap, Reach(LoadedTree(codec, cache).value))
    ensures forall j :: j in Reach(LoadedTree(codec, cache).value) && j < |LoadedTree(codec, cache).value.heap| ==>
      && LoadedTree(codec, cache).value.heap[j].id in LoadedTree(codec, cache).value.index
      && LoadedTree(codec, cache).value.index[LoadedTree(codec, cache).value.heap[j].id] == j
  {
    LoadedTreeFromWalk(codec, cache);
    WalkedKeys(Unwalked(codec, cache), LoadedTree(codec, cache).value);
  }
}
