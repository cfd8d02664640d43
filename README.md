# notion-front, modelled in Dafny

notion-front serves a Notion HTML export as a small web site. It has two
parts:

- **The transform pass** mirrors the source directory into a cache
  directory.
  - Every file name loses its label: the text up to its last space, as in
    "My Page 42.html" → "42.html".
  - Every HTML document is reduced to its `<article>` element.
  - The article is stamped with the document's title as `data-title`.
  - Links inside the document (`href` and `src`) are rewritten the same
    way as file names.
- **The loader** reads the cache back as a tree of documents.
  - A document `P/name.html` takes its children from the directory
    `P/name` beside it.
  - The first top-level document is the root.
  - Every node reachable from the root is indexed under its path relative
    to the cache.

The HTTP handler serves three kinds of request:

- `/` is the navigation list, the tree walked in preorder.
- An index key is a content page, with breadcrumbs from the root down to
  the node.
- Any other existing non-HTML file is served from the cache. Everything
  else gets 404.

A watcher rebuilds the cache and the tree on the first tick after a change
event. Events come only for entries directly in the source directory. It
publishes the new tree only when both stages succeed.

The model is split into one module per concern:

| file | module | models |
|---|---|---|
| `wrappers.dfy` | `Wrappers` | `Option` and `Result` |
| `text.dfy` | `Text` | the Go helpers the core uses: `strings.Split`/`Join`/`TrimSuffix`/`ReplaceAll` and `filepath.Ext`, for one-character separators |
| `url.dfy` | `Url` | `url.Parse`, reduced to "fails / which scheme" (section 3.1 of RFC 3986); `url.PathUnescape`, percent-decoding per section 2.1 of RFC 3986 |
| `html.dfy` | `Html` | html.go: `FindHTML` and `TraverseHTML` over a datatype of tag trees |
| `fs.dfy` | `Fs` | a directory tree as a value, entries in name order as `os.ReadDir` lists them; `MkdirAll` + `OpenFile(O_CREATE)`, a write, `Stat`, `ReadFile` |
| `transform.dfy` | `Transform` | transform.go |
| `tree.dfy` | `ContentTree` | tree.go: the nodes live in an arena (a sequence in which a position stands for a node's address) |
| `server.dfy` | `Server` | server.go: page models, the two route handlers, the dispatch loop |
| `watch.dfy` | `Watch` | watch.go: the `Watcher` class, its flag protocol, `Update` |

How the source's forms are carried over:

- Go strings and byte slices are `string`, one `char` per byte.
- A Go `*html.Node` handed to `FindHTML` or `TraverseHTML` is its sibling
  chain: the node and its next siblings, with nil as the empty chain.
- Callbacks with side effects (the visitor of `TraverseHTML`, the
  functions passed to `Node.Walk`) are folds that thread an accumulator.
- The loops of the source are methods with loop invariants. Each is proved
  equal to a specification function, and the lemmas state the properties
  of that function:
  - `FindHTML`, `TraverseHTML`, the segment loop of `TransformHref`, and
    the attribute loops of `TransformHTMLNode` and `LoadTreeNodeInfo`;
  - `TransformTreeDir`, `LoadTreeNodesFromDir`, the breadcrumb climb and
    the swap loop, and the handler loop.
- `TransformHTMLNode` rewrites an `array` of attributes in place.
  `NewContentPageModel` reverses its breadcrumbs in an `array` by swapping.
- The Go parser and renderer of `golang.org/x/net/html` are a `Codec`
  parameter.
- The source directory and the cache directory are `Fs.Entry` values.

## Model

| member | source | states |
|---|---|---|
| Transform.TransformFileName | transform.go:91-94 | the identifier holds no space, ends the name, is the whole name when there is no space, and otherwise follows a space |
| Transform.TransformFileNameIdempotent | transform.go:91-94 | stripping the label twice is stripping it once |
| Transform.LabelStripped | transform.go:91-94 | "label id" with a space-free id gives id, whatever the label holds |
| Text.LastFieldIsTextAfterLast | transform.go:92-93 | the last piece of `strings.Split` is exactly the text after the last separator |
| Text.JoinSplit | transform.go:196-209 | joining the pieces of a split gives back the string |
| Text.SplitJoin | transform.go:196-209 | splitting a join of separator-free pieces gives back the pieces |
| Text.Ext | transform.go:62 | `filepath.Ext`: a suffix that is "" or starts with the last '.' of the final element; "" only when that element has no '.' |
| Text.TrimSuffix | transform.go:73 | the suffix is removed exactly when present |
| Transform.TreeFileNameShape | transform.go:70-89 | the cache name keeps the source's extension, and its stem is the label-stripped stem |
| Transform.HtmlTreeFileName | transform.go:70-89 | "stem.html" becomes TransformFileName(stem) + ".html" |
| Transform.LabelledName | transform.go:70-89 | "My Page 42.html" and "42.html" both become "42.html" |
| Transform.TreeFileNameIdempotent | transform.go:70-89 | generating the cache name of a cache name changes nothing |
| Transform.GenerateTreeFilePath | transform.go:70-89 | the path lies directly under destDir; it is absent exactly for the names "", "." and "..", which `filepath.Join` would not place in destDir |
| Transform.GenerateTreeFilePathKeepsExt | transform.go:70-89 | the last name of the path has the source's extension and a space-free stem |
| Url.GetSchemeIsRfcScheme | transform.go:191-192 | a scheme is found exactly when the reference starts with an RFC 3986 scheme followed by ':' |
| Url.Parse | transform.go:191-192 | a non-empty scheme that Parse reports is an RFC 3986 scheme prefix of the part before '#' |
| Url.DecodeEncode | transform.go:199 | percent-decoding undoes percent-encoding |
| Url.DecodeWithoutPercent | transform.go:199 | a segment without '%' decodes to itself |
| Transform.TransformHref | transform.go:190-211 | the loop computes RewrittenHref: href itself when Parse fails or finds a scheme, otherwise the segments rewritten and joined with '/' |
| Transform.RewriteEachSegment | transform.go:196-207 | the in-place loop leaves every segment replaced by RewriteSegment of it: the cache-name rule applied to the unescaped segment |
| Transform.HrefMapsSegments | transform.go:196-209 | a rewritten reference has as many segments as the original, each the rewrite of the original's segment |
| Transform.PlainHrefFixed | transform.go:190-211 | a reference with no space and no '%' is unchanged ("a/1.html" is a fixed point) |
| Transform.SegmentFixpoint | transform.go:198-204 | a segment with no space, '%' or '/' is unchanged |
| Transform.SegmentIdempotent | transform.go:198-204 | rewriting an escape-free segment twice is rewriting it once |
| Transform.LabelledSegment | transform.go:198-204 | the segment "title id.html" becomes "id.html" |
| Transform.RewriteAttributes | transform.go:178-188 | count, order and keys of attributes are kept; non-element nodes and non-link attributes are untouched; href/src values of an element are rewritten |
| Transform.TransformHTMLNode | transform.go:178-188 | the in-place loop over the attribute array leaves RewriteAttributes of the old array |
| Transform.RewriteAttributeAt | transform.go:184-186 | one step of the loop: the attribute at the position becomes its rewrite, every other attribute stays |
| Transform.RewriteLinksPreorder | transform.go:149-152 | traversing with TransformHTMLNode rewrites every node of the document, in preorder, and nothing else |
| Transform.ExtractArticle | transform.go:157-173 | "no title" exactly when no title element is found under html/head; "no article" exactly when a title exists and no article is found under html/body; EmptyTitle exactly when both exist and the title has no child; on success the result is the first article under html/body with its children kept and its attributes replaced by the html element's followed by one data-title |
| Transform.StampedTitle | transform.go:170-173 | the data-title stamped on the article is the text of the title's first child |
| Transform.TransformHTMLContent | transform.go:143-176 | the output exists only when the document parses and has a title and an article, and it is the rendering of the stamped article |
| Transform.TransformTreeFile | transform.go:59-68 | the method computes TransformFile: open (create) the cache file, then copy or transform into it |
| Transform.TransformFileContent | transform.go:62-67 | after success the cache file holds the source bytes for a non-HTML file and the transformed content for a ".html" file |
| Transform.FailedTransformLeavesFile | transform.go:96-141 | a document whose transform fails reports the content error and leaves its newly created cache file empty |
| Transform.TransformTreeDir | transform.go:33-57 | the loop computes TransformEntries: entries in listing order, directories recursed into under their label-stripped names, return at the first error |
| Transform.TransformTree | transform.go:17-31 | the pass starts from an empty cache and leaves every cache listing in name order |
| Transform.TransformEntriesAppend | transform.go:39-54 | the pass over xs + ys is the pass over xs, then, unless that failed, the pass over ys from the cache xs left |
| Transform.StopsAtFirstFailure | transform.go:45-53 | after an entry fails, no later entry changes the cache or the outcome |
| Transform.TransformKeepsWellFormed | transform.go:39-54 | the pass keeps every cache listing sorted by name |
| Fs.OpenThenLookup | transform.go:97-116 | opening for writing creates a missing file empty and leaves an existing file as it is |
| Fs.OverwriteThenLookup | transform.go:129-137 | a write replaces the contents of the file and keeps its name |
| Fs.OpenKeepsWellFormed | transform.go:97-116 | creating files and directories keeps every listing in name order |
| Fs.StatPath | server.go:57-62 | the path exists exactly when a lookup finds its entry |
| Fs.ReadFile | tree.go:55-62 | reading succeeds exactly on a file and yields its contents |
| Html.FindHTML | html.go:9-32 | the two loops compute Find; when the start node matches it is returned |
| Html.FindSound | html.go:9-32 | the result is nil exactly when no matching element occurs in the chain or below it; otherwise it is a chain of the searched forest starting with a matching element |
| Html.FindOrder | html.go:12-29 | a matching sibling wins over every subtree (the first such sibling); otherwise the first sibling whose subtree holds a match decides |
| Html.TraverseHTML | html.go:44-60 | the loop computes the visitor fold over the preorder of the chain |
| Html.PreorderShape | html.go:44-60 | every node is visited once: a node, then its subtree, then the next sibling |
| Html.VisitAppend | html.go:46-54 | visiting xs + ys is visiting xs, then ys from where xs left off, unless xs failed |
| Html.StopsAtFirstError | html.go:46-54 | once the visitor fails, no later node changes the outcome |
| ContentTree.Walk | tree.go:33-53 | Walk is the fold of the callback over WalkOrder from the root at depth 0; a nil node calls nothing |
| ContentTree.WalkRecIsFold | tree.go:37-53 | the recursion of walkRec is the fold over WalkOrder, so the first error ends the calls |
| ContentTree.WalkOrderIsPreorder | tree.go:37-53 | the first call is on the node at its depth, and every later call is on a child of an earlier call, one level deeper |
| ContentTree.FoldAppend | tree.go:40-48 | folding xs + ys is folding xs, then ys, unless xs failed |
| ContentTree.DataTitle | tree.go:170-181 | absent exactly when no attribute has the key data-title; otherwise it is the value of a data-title attribute |
| ContentTree.DataTitleIsFirst | tree.go:170-178 | the first data-title attribute gives the title |
| ContentTree.FirstDataTitle | tree.go:170-181 | the loop over the article's attributes computes DataTitle |
| ContentTree.NodeInfo | tree.go:146-182 | a loaded node has the path dir/name, no links, and the label-stripped name without ".html" as ID |
| ContentTree.NodeInfoTitle | tree.go:165-181 | the title is the data-title of an article element of the document; the load fails for want of an article exactly when the document has none |
| ContentTree.LoadTreeNodeInfo | tree.go:146-182 | the method computes NodeInfo |
| ContentTree.LoadNode | tree.go:117-144 | a successful load only appends to the arena, and the loaded node is the first new position |
| ContentTree.LoadTreeNode | tree.go:117-144 | the method computes LoadNode: the node, linked to its parent, and the documents of the directory named after its stem as children |
| ContentTree.LoadBelowLeaf | tree.go:131-141 | a document whose stem names no directory beside it gets no children |
| ContentTree.LoadBelowNode | tree.go:131-141 | the new node keeps everything but its children; when the entry named after its stem is a directory, its children are exactly the top-level nodes loaded from that directory, in load order; otherwise nothing is loaded and the arena is unchanged |
| ContentTree.LoadNodeChildren | tree.go:117-144 | the node for a document sits at the first new position and is LoadTreeNodeInfo's node with the given parent; it has children only if the entry named after its stem is a directory, and its load is the load of that directory below it |
| ContentTree.LoadTreeNodesFromDir | tree.go:92-115 | the loop over the glob's matches computes LoadNodes, in glob order, returning at the first error |
| ContentTree.Glob | tree.go:99-102 | the matches are exactly the entries whose name ends in ".html", in listing order |
| ContentTree.LoadFromOrder | tree.go:104-114 | the loop makes one new node per match, with strictly increasing positions, the k-th node's path being the k-th match's name in the directory |
| ContentTree.OrderSequence | tree.go:104-112 | appending the rest's nodes after the first match's node keeps the order of the matches |
| ContentTree.LoadNodesOrder | tree.go:92-115 | the directory's top-level nodes are exactly one per glob match, in glob order: the k-th has the k-th ".html" entry's path |
| ContentTree.LoadNodesLinked | tree.go:117-144 | every loaded node is linked both ways: each child's Parent is the node; top-level nodes have the given parent; the children of name.html are documents of the directory name beside it |
| ContentTree.LoadTree | tree.go:64-90 | the method computes LoadedTree: fail on an empty top level, root the first top-level node, assign IDs and the index by a walk |
| ContentTree.IdOf | tree.go:79-81 | an ID is never empty and starts with '/', like the cleaned request paths it is looked up by |
| ContentTree.IdNotSlash | tree.go:79-81 | the ID of a document path is never "/", the list page's path |
| ContentTree.LoadedTreeValid | tree.go:64-90 | a loaded tree is linked and its root has no parent |
| ContentTree.LoadedTreeIndex | tree.go:79-84 | every key leads to a reachable node whose ID is that key, derived from its path; every reachable node has its path-derived ID as a key |
| ContentTree.LoadedTreeKeys | tree.go:79-84 | when no two reachable nodes share an ID, the index maps each reachable node's ID back to that node |
| ContentTree.LoadedTreeNoSlash | tree.go:79-84 | "/" is never a key of the index |
| ContentTree.AssignIdsEffect | tree.go:79-83 | the walk's callbacks change only IDs and index entries, and keep the index sound |
| Server.ListPageModel | server.go:147-164 | the list page never fails and holds one nav item per walk step, in walk order |
| Server.FoldAppendNav | server.go:150-157 | the walk callback appends one nav item per step and never fails |
| Server.ListPageNesting | server.go:147-164 | the first item is the root at depth 0, and every later item sits one level below an earlier one |
| Server.Climb | server.go:190-199 | the climb starts at the target, follows parents, and ends at a node without parent |
| Server.ClimbBreadcrumbs | server.go:190-199 | the loop up the parents collects one breadcrumb per node of the climb, the target first |
| Server.SwapReverse | server.go:201-204 | swapping positions i and len-1-i for i < len/2 leaves the reverse of the array |
| Server.ReverseBreadcrumbs | server.go:190-204 | reversing the collected breadcrumbs gives the breadcrumbs of the reversed climb |
| Server.AncestorsChain | server.go:190-204 | after reversal the topmost ancestor is first, the target last, and each item is the parent of the next |
| Server.AncestorsIncreasing | server.go:190-204 | the breadcrumb nodes strictly increase from the root to the target, so none appears twice |
| Server.ClimbDecreasing | server.go:190-199 | each step up the parents reaches an earlier node, so the climb ends |
| Server.ExactlyOneActive | server.go:195-204 | exactly one breadcrumb is active, the last one, the target |
| Server.NewContentPageModel | server.go:178-207 | the method computes ContentModel: read, climb, reverse |
| Server.ContentModelFails | server.go:179-183 | the content page fails exactly when the node's document cannot be read, and otherwise holds its contents |
| Server.TryServePage | server.go:68-89 | a tree error is passed on; "/" is the list page; another cleaned path is handled exactly when it is a key of the index |
| Server.TryServeFile | server.go:49-66 | a ".html" path and a missing path are declined; a file is served exactly when it exists and is not ".html" |
| Server.HandleRequest | server.go:19-40 | the loop over the route handlers computes Dispatch |
| Server.ServeOrder | server.go:22-47 | pages first, then files; the first error is a 500, the first handled request is served, 404 when neither handles it |
| Server.HtmlOnlyAsPages | server.go:44-66 | a ".html" path outside the index gets 404 |
| Server.LoadedTreeServable | server.go:82 | every index entry of a loaded tree names a node |
| Watch.Next | watch.go:40-53 | an event sets the flag to pending, whatever it was; a tick sets it to ready and starts an update exactly when it was pending |
| Watch.EventsThenTick | watch.go:40-53 | any number of events before a tick gives exactly one update, and none when there were no events and nothing was pending |
| Watch.TicksWithoutEvents | watch.go:46-53 | without events no tick starts an update, before the first event and after a finished one |
| Watch.UpdatesBounded | watch.go:40-53 | updates never outnumber the ticks, nor the events (plus one already pending) |
| Watch.AppendTick | watch.go:46-53 | a tick leaves the flag ready and adds one update exactly when the flag was pending |
| Watch.Watcher.constructor | watch.go:20-38 | a new watcher has no tree yet, an empty cache and the flag unset |
| Watch.Watcher.Update | watch.go:75-91 | the cache is rebuilt; the tree is replaced exactly when both the transform and the load succeed, and kept otherwise |
| Watch.Watcher.OnEvent | watch.go:41-43 | an event marks an update pending and changes nothing else |
| Watch.Watcher.OnTick | watch.go:47-53 | the flag is swapped to ready, and Update runs exactly when it was pending; a failed update leaves the old tree |
| Watch.Watcher.GetTree | watch.go:68-73 | the current tree, with no error |
| Watch.Watcher.RootDir | watch.go:64-66 | the cache directory |
| Watch.Watcher.Serve | server.go:19-40 | a request is dispatched against the watcher's current tree and cache |
| Watch.NewWatcher | watch.go:20-62 | a watcher exists exactly when the first update succeeds; it starts with the flag unset and the loaded tree |

## Left out

- File system I/O is not modelled.
  - The source tree and the cache are values.
  - `os.Stat`/`os.RemoveAll` of the cache in TransformTree become "start
    from an empty cache"; their errors are not modelled.
  - Errors of `ReadDir`, `ReadAll`, `Write` and `Close` are not modelled.
  - The file server of TryServeFile becomes a `StaticFile` page.
- Transform.TransformTreeFile does not model the missing `O_TRUNC` of
  CopyFile. Each write replaces the file's whole contents. The pass starts
  from an empty cache, so this differs only when two sources map to the
  same cache name. Such name collisions are not modelled either.
- Transform.GenerateTreeFilePath: a label-stripped name "", "." or ".."
  (e.g. "draft ") stops the pass with a `SpecialName` error. In Go,
  `filepath.Join` folds such a name into destDir or its parent.
- `filepath.Clean` and `filepath.Join` are not modelled.
  - Paths are sequences of names.
  - A request arrives as its already-cleaned sequence of names.
- Url.Parse models only whether parsing fails and which scheme it finds.
  Authority validation (host, port, user information) is not part of this
  model.
- `golang.org/x/net/html` Parse and Render are the functions of a `Codec`
  parameter; WHATWG tree construction is not modelled.
- Transform.ExtractArticle: an empty `<title>` makes the source dereference
  a nil FirstChild and panic. The model reports `EmptyTitle` instead.
- ContentTree.LoadNode: a document named "..html" has the stem ".".
  - `fs.Stat(".")` succeeds, and the source loads the same directory below
    itself again without end.
  - The model stops with `SelfReference`.
  - The stems "" and ".." are refused by `fs.Stat` and give `InvalidPath`.
- ContentTree.IdOf assumes a clean cache directory: not ".", not "/", no
  "./" prefix and no trailing "/". LoadTree trims the raw directory string
  from each node's path (tree.go:80), but the paths were built from the
  cleaned directory (tree.go:93). For another spelling, such as the one
  main.go's `-c` flag may pass, the trim misses and the IDs keep a prefix
  that no request path matches.
- ContentTree.LoadedTreeKeys requires that no two reachable nodes share an
  ID. IDs come from paths with '\' turned into '/', so a name holding a
  backslash can collide with a nested path. The source's index then keeps
  the later node.
- Watch: the goroutines, the ticker, `fsnotify`, `atomic.Value` and the
  mutex are not modelled.
  - The event and tick loop bodies are the methods OnEvent and OnTick,
    called one at a time.
  - That `Update` holds the mutex and blocks readers for the whole rebuild
    is not modelled.
  - The error of `fsnotify.NewWatcher` is not modelled.
  - `fsw.Add(sourceDir)` (watch.go:33) watches only the top directory.
    `fsnotify` is not recursive, so an edit inside a subdirectory raises
    no event and triggers no rebuild. The model takes events as given and
    does not say which changes produce them.
  - The error returned by `fsw.Add` is dropped by the source and is not
    modelled.
- Templates, the rendering of pages, logging, `http.Error` bodies and
  main.go are not modelled. A response names the page and its model.
- The status of a failed template render (`RenderTemplatePage`) is not
  modelled.
