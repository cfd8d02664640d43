/**
  The request handling of server.go: the page models built from the tree,
  the two route handlers and the loop that dispatches a request to them.
  Templates, the HTTP server and http.FileServer are not modelled: a
  response names the page it would render and its model.
 */
module Server {
  import opened Wrappers
  import opened Text
  import opened Fs
  import opened ContentTree

  datatype NavItem = NavItem(title: string, url: string, depth: nat)

  datatype BreadcrumbItem = BreadcrumbItem(title: string, url: string, isActive: bool)

  datatype ContentPageModel = ContentPageModel(title: string, content: string, breadcrumbs: seq<BreadcrumbItem>)

  /** The page a handled request renders: list.html, content.html, 500.html, or a file of the cache. */
  datatype Page =
    | ListPage(nav: seq<NavItem>)
    | ContentPage(model: ContentPageModel)
    | ErrorPage
    | StaticFile(path: Path)

  /** What a route handler reports: not handled, handled, or an error. */
  datatype Outcome = Declined | Handled(page: Page) | Failed(msg: string)

  /** What the client gets: a rendered page, http.Error with status 500, or 404.html. */
  datatype Response = Served(page: Page) | InternalError(msg: string) | NotFoundPage

  // ---------------------------------------------------------------------
  // The list page

  /** One nav item per walk step: the node's title, its ID as URL, the walk depth. */
  function NavItems(heap: seq<Node>, steps: seq<Step>): (r: seq<NavItem>)
    requires forall k :: 0 <= k < |steps| ==> steps[k].node < |heap|
    ensures |r| == |steps|
  {
    seq(|steps|, k requires 0 <= k < |steps| => NavItem(heap[steps[k].node].title, heap[steps[k].node].id, steps[k].depth))
  }

  /** The callback NewListPageModel walks the tree with: append the node's nav item. */
  function AppendNav(heap: seq<Node>): (seq<NavItem>, nat, nat) -> Result<seq<NavItem>, string>
  {
    (nav: seq<NavItem>, i: nat, depth: nat) =>
      if i < |heap| then Ok(nav + [NavItem(heap[i].title, heap[i].id, depth)]) else Ok(nav)
  }

  lemma {:induction false} FoldAppendNav(heap: seq<Node>, steps: seq<Step>, nav: seq<NavItem>)
    requires forall k :: 0 <= k < |steps| ==> steps[k].node < |heap|
    ensures Fold(steps, nav, AppendNav(heap)) == Ok(nav + NavItems(heap, steps))
  {
    if steps != [] {
      var i := steps[0].node;
      var item := NavItem(heap[i].title, heap[i].id, steps[0].depth);
      assert AppendNav(heap)(nav, i, steps[0].depth) == Ok(nav + [item]);
      FoldAppendNav(heap, steps[1..], nav + [item]);
      assert NavItems(heap, steps) == [item] + NavItems(heap, steps[1..]);
      assert (nav + [item]) + NavItems(heap, steps[1..]) == nav + ([item] + NavItems(heap, steps[1..]));
    } else {
      assert nav + NavItems(heap, steps) == nav;
    }
  }

  /**
    NewListPageModel: it never fails, and its nav holds one item per node in
    the order Walk visits them, with the node's title, its ID as URL, and
    the walk depth.
   */
  function ListPageModel(t: Tree): (r: Result<seq<NavItem>, string>)
    requires Valid(t)
    ensures ChildrenAfter(t.heap)
    ensures r == Ok(NavItems(t.heap, WalkOrder(t.heap, t.root, 0)))
  {
    LinkedChildrenAfter(t.heap);
    FoldAppendNav(t.heap, WalkOrder(t.heap, t.root, 0), []);
    assert [] + NavItems(t.heap, WalkOrder(t.heap, t.root, 0)) == NavItems(t.heap, WalkOrder(t.heap, t.root, 0));
    Walk(t.heap, Some(t.root), [], AppendNav(t.heap))
  }

  /**
    The nav starts with the root at depth 0, and every later item is a
    child of an earlier item, one level deeper.
   */
  lemma ListPageNesting(t: Tree)
    requires Valid(t)
    ensures var nav := ListPageModel(t).value;
      && nav[0] == NavItem(t.heap[t.root].title, t.heap[t.root].id, 0)
      && forall p :: 0 < p < |nav| ==> exists m :: 0 <= m < p && nav[m].depth + 1 == nav[p].depth
  {
    LinkedChildrenAfter(t.heap);
    var order := WalkOrder(t.heap, t.root, 0);
    var nav := ListPageModel(t).value;
    WalkOrderIsPreorder(t.heap, t.root, 0);
    forall p | 0 < p < |nav|
      ensures exists m :: 0 <= m < p && nav[m].depth + 1 == nav[p].depth
    {
      assert ParentBefore(t.heap, order, p);
      var m :| 0 <= m < p && order[m].node < |t.heap| && order[m].depth + 1 == order[p].depth && order[p].node in t.heap[order[m].node].children;
      assert nav[m].depth + 1 == nav[p].depth;
    }
  }

  // ---------------------------------------------------------------------
  // The content page

  /** Parents come before their children in the arena, so climbing parents ends. */
  ghost predicate ParentsBefore(heap: seq<Node>) {
    forall j :: 0 <= j < |heap| && heap[j].parent.Some? ==> heap[j].parent.value < j
  }

  lemma ValidParentsBefore(t: Tree)
    requires Valid(t)
    ensures ParentsBefore(t.heap)
  {
    forall j | 0 <= j < |t.heap| && t.heap[j].parent.Some?
      ensures t.heap[j].parent.value < j
    {
      assert NodeLinked(t.heap, 0, None, j);
    }
  }

  /** The nodes the breadcrumb loop visits: `n`, its parent, its grandparent, up to a node without parent. */
  function Climb(heap: seq<Node>, n: nat): (r: seq<nat>)
    requires ParentsBefore(heap) && n < |heap|
    ensures |r| >= 1 && r[0] == n
    ensures forall k :: 0 <= k < |r| ==> r[k] < |heap|
    ensures heap[r[|r| - 1]].parent.None?
    ensures forall k :: 0 <= k < |r| - 1 ==> heap[r[k]].parent == Some(r[k + 1])
    decreases n
  {
    match heap[n].parent
    case None => [n]
    case Some(p) => [n] + Climb(heap, p)
  }

  function Breadcrumb(heap: seq<Node>, n: nat, target: nat): BreadcrumbItem
    requires n < |heap|
  {
    BreadcrumbItem(heap[n].title, heap[n].id, n == target)
  }

  function Breadcrumbs(heap: seq<Node>, nodes: seq<nat>, target: nat): (r: seq<BreadcrumbItem>)
    requires forall k :: 0 <= k < |nodes| ==> nodes[k] < |heap|
    ensures |r| == |nodes|
  {
    seq(|nodes|, k requires 0 <= k < |nodes| => Breadcrumb(heap, nodes[k], target))
  }

  /** `s` back to front. */
  function Reverse<T>(s: seq<T>): (r: seq<T>)
    ensures |r| == |s|
  {
    seq(|s|, k requires 0 <= k < |s| => s[|s| - 1 - k])
  }

  lemma ReverseBreadcrumbs(heap: seq<Node>, nodes: seq<nat>, target: nat)
    requires forall k :: 0 <= k < |nodes| ==> nodes[k] < |heap|
    ensures Reverse(Breadcrumbs(heap, nodes, target)) == Breadcrumbs(heap, Reverse(nodes), target)
  {
  }

  /** The target's ancestors, the topmost first, the target itself last. */
  function Ancestors(heap: seq<Node>, n: nat): seq<nat>
    requires ParentsBefore(heap) && n < |heap|
  {
    Reverse(Climb(heap, n))
  }

  /** The breadcrumbs run from a node without parent down to the target, each item the parent of the next. */
  lemma AncestorsChain(heap: seq<Node>, n: nat)
    requires ParentsBefore(heap) && n < |heap|
    ensures |Ancestors(heap, n)| >= 1 && Ancestors(heap, n)[|Ancestors(heap, n)| - 1] == n
    ensures heap[Ancestors(heap, n)[0]].parent.None?
    ensures forall k :: 0 <= k < |Ancestors(heap, n)| ==> Ancestors(heap, n)[k] < |heap|
    ensures forall k :: 0 < k < |Ancestors(heap, n)| ==> heap[Ancestors(heap, n)[k]].parent == Some(Ancestors(heap, n)[k - 1])
  {
    var c := Climb(heap, n);
    var a := Ancestors(heap, n);
    forall k | 0 < k < |a|
      ensures heap[a[k]].parent == Some(a[k - 1])
    {
      assert a[k] == c[|c| - 1 - k] && a[k - 1] == c[|c| - 1 - k + 1];
    }
  }

  /** Every node appears at most once among the breadcrumbs: they strictly increase. */
  lemma AncestorsIncreasing(heap: seq<Node>, n: nat)
    requires ParentsBefore(heap) && n < |heap|
    ensures forall k, m :: 0 <= k < m < |Ancestors(heap, n)| ==> Ancestors(heap, n)[k] < Ancestors(heap, n)[m]
  {
    var c := Climb(heap, n);
    ClimbDecreasing(heap, n);
    var a := Ancestors(heap, n);
    forall k, m | 0 <= k < m < |a|
      ensures a[k] < a[m]
    {
      assert a[k] == c[|c| - 1 - k] && a[m] == c[|c| - 1 - m];
    }
  }

  lemma {:induction false} ClimbDecreasing(heap: seq<Node>, n: nat)
    requires ParentsBefore(heap) && n < |heap|
    ensures forall k, m :: 0 <= k < m < |Climb(heap, n)| ==> Climb(heap, n)[m] < Climb(heap, n)[k]
    decreases n
  {
    var c := Climb(heap, n);
    if heap[n].parent.Some? {
      var p := heap[n].parent.value;
      ClimbDecreasing(heap, p);
      forall k, m | 0 <= k < m < |c|
        ensures c[m] < c[k]
      {
        assert c[m] == Climb(heap, p)[m - 1];
        if k > 0 {
          assert c[k] == Climb(heap, p)[k - 1];
        } else {
          assert c[m] <= p;
        }
      }
    }
  }

  /** NewContentPageModel: read the node's document, then its breadcrumbs from the topmost ancestor down to it. */
  function ContentModel(t: Tree, cache: seq<Entry>, n: nat): Result<ContentPageModel, FsError>
    requires Valid(t) && n < |t.heap|
  {
    ValidParentsBefore(t);
    match ReadFile(cache, t.heap[n].path)
    case Err(e) => Err(e)
    case Ok(content) => Ok(ContentPageModel(t.heap[n].title, content, Breadcrumbs(t.heap, Ancestors(t.heap, n), n)))
  }

  /**
    The content page's breadcrumbs have exactly one active item, the last
    one, which is the page's own node; the first is a node without parent.
   */
  lemma ExactlyOneActive(t: Tree, cache: seq<Entry>, n: nat)
    requires Valid(t) && n < |t.heap| && ContentModel(t, cache, n).Ok?
    ensures var b := ContentModel(t, cache, n).value.breadcrumbs;
      && |b| >= 1
      && b[|b| - 1] == BreadcrumbItem(t.heap[n].title, t.heap[n].id, true)
      && forall k :: 0 <= k < |b| ==> (b[k].isActive <==> k == |b| - 1)
  {
    ValidParentsBefore(t);
    AncestorsChain(t.heap, n);
    AncestorsIncreasing(t.heap, n);
    var a := Ancestors(t.heap, n);
    var b := ContentModel(t, cache, n).value.breadcrumbs;
    forall k | 0 <= k < |b|
      ensures b[k].isActive <==> k == |b| - 1
    {
      assert b[k].isActive == (a[k] == n);
      if k < |b| - 1 {
        assert a[k] < a[|a| - 1];
      }
    }
  }

  /** The content page fails exactly when the node's document cannot be read. */
  lemma ContentModelFails(t: Tree, cache: seq<Entry>, n: nat)
    requires Valid(t) && n < |t.heap|
    ensures ContentModel(t, cache, n).Err? <==> ReadFile(cache, t.heap[n].path).Err?
    ensures ContentModel(t, cache, n).Ok? ==>
      ContentModel(t, cache, n).value.content == Lookup(cache, t.heap[n].path).value.data
  {
  }

  lemma BreadcrumbsAppend(heap: seq<Node>, nodes: seq<nat>, n: nat, target: nat)
    requires forall k :: 0 <= k < |nodes| ==> nodes[k] < |heap|
    requires n < |heap|
    ensures Breadcrumbs(heap, nodes + [n], target) == Breadcrumbs(heap, nodes, target) + [Breadcrumb(heap, n, target)]
  {
  }

  lemma ClimbStep(heap: seq<Node>, done: seq<nat>, m: nat)
    requires ParentsBefore(heap) && m < |heap|
    ensures heap[m].parent.Some? ==> done + Climb(heap, m) == (done + [m]) + Climb(heap, heap[m].parent.value)
    ensures heap[m].parent.None? ==> done + Climb(heap, m) == done + [m]
  {
  }

  /** The item at position k once the outer i items at each end have been swapped. */
  function Swapped<T>(s: seq<T>, i: int, k: int): T
    requires 0 <= k < |s|
  {
    if k < i || |s| - i <= k then s[|s| - 1 - k] else s[k]
  }

  /** The swap loop: positions i and len-1-i exchanged for every i < len/2. */
  method SwapReverse(a: array<BreadcrumbItem>)
    modifies a
    ensures a[..] == Reverse(old(a[..]))
  {
    ghost var s := a[..];
    var i := 0;
    while i < a.Length / 2
      invariant 0 <= i <= a.Length / 2 && |s| == a.Length
      invariant forall k :: 0 <= k < a.Length ==> a[k] == Swapped(s, i, k)
    {
      var j := a.Length - i - 1;
      a[i], a[j] := a[j], a[i];
      i := i + 1;
    }
  }

  /** The loop of NewContentPageModel up the parents: one breadcrumb per node, the target first. */
  method ClimbBreadcrumbs(t: Tree, node: nat) returns (items: seq<BreadcrumbItem>)
    requires ParentsBefore(t.heap) && node < |t.heap|
    ensures items == Breadcrumbs(t.heap, Climb(t.heap, node), node)
  {
    items := [];
    var n: Option<nat> := Some(node);
    ghost var done: seq<nat> := [];
    while n.Some?
      invariant forall k :: 0 <= k < |done| ==> done[k] < |t.heap|
      invariant items == Breadcrumbs(t.heap, done, node)
      invariant n.Some? ==> n.value < |t.heap| && Climb(t.heap, node) == done + Climb(t.heap, n.value)
      invariant n.None? ==> Climb(t.heap, node) == done
      decreases if n.Some? then n.value + 1 else 0
    {
      var m := n.value;
      var item := BreadcrumbItem(t.heap[m].title, t.heap[m].id, m == node);
      BreadcrumbsAppend(t.heap, done, m, node);
      ClimbStep(t.heap, done, m);
      items := items + [item];
      done := done + [m];
      n := t.heap[m].parent;
    }
  }

  /** NewContentPageModel: the read, the loop up the parents, then the in-place reversal. */
  method NewContentPageModel(t: Tree, cache: seq<Entry>, node: nat) returns (r: Result<ContentPageModel, FsError>)
    requires Valid(t) && node < |t.heap|
    ensures r == ContentModel(t, cache, node)
  {
    ValidParentsBefore(t);
    var content := ReadFile(cache, t.heap[node].path);
    if content.Err? {
      return Err(content.error);
    }
    var items := ClimbBreadcrumbs(t, node);
    var crumbs := new BreadcrumbItem[|items|](k requires 0 <= k < |items| => items[k]);
    assert crumbs[..] == items;
    SwapReverse(crumbs);
    ReverseBreadcrumbs(t.heap, Climb(t.heap, node), node);
    return Ok(ContentPageModel(t.heap[node].title, content.value, crumbs[..]));
  }

  // ---------------------------------------------------------------------
  // Routing

  /** A tree the handlers can serve: loaded, and every index entry names a node. */
  ghost predicate Servable(t: Tree) {
    Valid(t) && forall key :: key in t.index ==> t.index[key] < |t.heap|
  }

  lemma LoadedTreeServable(codec: Html.Codec, cache: seq<Entry>)
    requires LoadedTree(codec, cache).Ok?
    ensures Servable(LoadedTree(codec, cache).value)
  {
    LoadedTreeIndex(codec, cache);
  }

  /** The cleaned URL path of a request for `req`: "/" followed by its '/'-separated names. */
  function UrlPath(req: Path): string {
    "/" + Join(req, '/')
  }

  /**
    TryServePage: a tree error is passed on; "/" is the list page; a key of
    the index is that node's content page, or the 500 page when its
    document cannot be read; anything else is left to the next handler.
   */
  function TryServePage(tree: Result<Tree, string>, cache: seq<Entry>, req: Path): (r: Outcome)
    requires tree.Ok? ==> Servable(tree.value)
    ensures tree.Err? <==> r.Failed?
    ensures tree.Ok? && ReplaceChar(UrlPath(req), '\\', '/') == "/" ==> r == Handled(ListPage(ListPageModel(tree.value).value))
    ensures r.Declined? <==> tree.Ok? && ReplaceChar(UrlPath(req), '\\', '/') != "/" && ReplaceChar(UrlPath(req), '\\', '/') !in tree.value.index
    ensures tree.Ok? && ReplaceChar(UrlPath(req), '\\', '/') != "/" && ReplaceChar(UrlPath(req), '\\', '/') in tree.value.index ==>
      r == match ContentModel(tree.value, cache, tree.value.index[ReplaceChar(UrlPath(req), '\\', '/')])
        case Err(_) => Handled(ErrorPage)
        case Ok(model) => Handled(ContentPage(model))
  {
    match tree
    case Err(e) => Failed(e)
    case Ok(t) =>
      var path := ReplaceChar(UrlPath(req), '\\', '/');
      if path == "/" then Handled(ListPage(ListPageModel(t).value))
      else if path !in t.index then Declined
      else match ContentModel(t, cache, t.index[path])
        case Err(_) => Handled(ErrorPage)
        case Ok(model) => Handled(ContentPage(model))
  }

  /**
    TryServeFile: a path with extension ".html" is left to the next handler,
    and so is one that does not exist; a stat error other than not-exist is
    an error; anything else is served from the cache directory.
   */
  function TryServeFile(rootDir: Path, cache: seq<Entry>, req: Path): (r: Outcome)
    ensures Ext(Last(rootDir + req)) == ".html" ==> r.Declined?
    ensures StatPath(cache, req).NotExist? ==> r.Declined?
    ensures r.Handled? <==> Ext(Last(rootDir + req)) != ".html" && StatPath(cache, req).Exists?
    ensures r.Handled? ==> r.page == StaticFile(req)
  {
    if Ext(Last(rootDir + req)) == ".html" then Declined
    else match StatPath(cache, req)
      case NotExist => Declined
      case NotDir => Failed("not a directory")
      case Exists(_) => Handled(StaticFile(req))
  }

  /** The last name of a path, "" for the empty path. */
  function Last(path: Path): string {
    if path == [] then "" else path[|path| - 1]
  }

  datatype Handler = PageHandler | FileHandler

  /** httpRouteHandlers: pages first, then files. */
  const RouteHandlers: seq<Handler> := [PageHandler, FileHandler]

  function Run(h: Handler, tree: Result<Tree, string>, rootDir: Path, cache: seq<Entry>, req: Path): Outcome
    requires tree.Ok? ==> Servable(tree.value)
  {
    match h
    case PageHandler => TryServePage(tree, cache, req)
    case FileHandler => TryServeFile(rootDir, cache, req)
  }

  /** The handlers in turn: the first error is a 500, the first handled request is served, and 404 when none handles it. */
  function Dispatch(handlers: seq<Handler>, tree: Result<Tree, string>, rootDir: Path, cache: seq<Entry>, req: Path): Response
    requires tree.Ok? ==> Servable(tree.value)
  {
    if handlers == [] then NotFoundPage
    else match Run(handlers[0], tree, rootDir, cache, req)
      case Failed(msg) => InternalError(msg)
      case Handled(page) => Served(page)
      case Declined => Dispatch(handlers[1..], tree, rootDir, cache, req)
  }

  /** CreateHTTPHandler's handler: the loop over the route handlers with its early returns. */
  method HandleRequest(tree: Result<Tree, string>, rootDir: Path, cache: seq<Entry>, req: Path) returns (resp: Response)
    requires tree.Ok? ==> Servable(tree.value)
    ensures resp == Dispatch(RouteHandlers, tree, rootDir, cache, req)
  {
    var handlers := RouteHandlers;
    for i := 0 to |handlers|
      invariant Dispatch(handlers, tree, rootDir, cache, req) == Dispatch(handlers[i..], tree, rootDir, cache, req)
    {
      assert handlers[i..][1..] == handlers[i + 1..];
      var outcome := Run(handlers[i], tree, rootDir, cache, req);
      if outcome.Failed? {
        return InternalError(outcome.msg);
      }
      if outcome.Handled? {
        return Served(outcome.page);
      }
    }
    assert handlers[|handlers|..] == [];
    return NotFoundPage;
  }

  /**
    The route table as a whole: the page handler decides first, the file
    handler only when no page matches, and 404 when neither serves.
   */
  lemma ServeOrder(tree: Result<Tree, string>, rootDir: Path, cache: seq<Entry>, req: Path)
    requires tree.Ok? ==> Servable(tree.value)
    ensures Dispatch(RouteHandlers, tree, rootDir, cache, req) ==
      match TryServePage(tree, cache, req)
      case Failed(msg) => InternalError(msg)
      case Handled(page) => Served(page)
      case Declined =>
        match TryServeFile(rootDir, cache, req)
        case Failed(msg) => InternalError(msg)
        case Handled(page) => Served(page)
        case Declined => NotFoundPage
  {
    var rest := RouteHandlers[1..];
    assert RouteHandlers[0] == PageHandler && rest == [FileHandler] && rest[1..] == [];
    assert Dispatch(rest, tree, rootDir, cache, req) ==
      match TryServeFile(rootDir, cache, req)
      case Failed(msg) => InternalError(msg)
      case Handled(page) => Served(page)
      case Declined => Dispatch([], tree, rootDir, cache, req);
  }

  /** A ".html" document is only ever served as a page of the tree: a request outside the index for one gets 404. */
  lemma HtmlOnlyAsPages(t: Tree, rootDir: Path, cache: seq<Entry>, req: Path)
    requires Servable(t)
    requires ReplaceChar(UrlPath(req), '\\', '/') != "/" && ReplaceChar(UrlPath(req), '\\', '/') !in t.index
    requires Ext(Last(rootDir + req)) == ".html"
    ensures Dispatch(RouteHandlers, Ok(t), rootDir, cache, req) == NotFoundPage
  {
    ServeOrder(Ok(t), rootDir, cache, req);
  }
}
