/**
  The transform pass of transform.go: label-stripped file names, link
  rewriting inside documents, extraction of the <article> element, and the
  mirror of the source directory into the cache directory.
 */
module Transform {
  import opened Wrappers
  import opened Text
  import opened Url
  import opened Html
  import opened Fs

  /**
    TransformFileName: the last space-separated field of a name, its
    identifier. It holds no space, it ends the name, and it is the whole
    name when the name has no space.
   */
  function TransformFileName(filename: string): (id: string)
    ensures ' ' !in id
    ensures IsSuffix(id, filename)
    ensures ' ' !in filename ==> id == filename
    ensures ' ' in filename ==> |id| < |filename| && filename[|filename| - |id| - 1] == ' '
  {
    LastFieldIsTextAfterLast(filename, ' ');
    LastField(filename, ' ')
  }

  /** Stripping the label twice is stripping it once. */
  lemma TransformFileNameIdempotent(filename: string)
    ensures TransformFileName(TransformFileName(filename)) == TransformFileName(filename)
  {
    LastFieldIdempotent(filename, ' ');
  }

  /** The name GenerateTreeFilePath gives a file: its stem label-stripped, its extension kept. */
  function TreeFileName(name: string): string
  {
    var ext := Ext(name);
    TransformFileName(TrimSuffix(name, ext)) + ext
  }

  /**
    The result of TreeFileName has the extension of the name it came from,
    and before that extension stands the identifier of the name's stem.
   */
  lemma TreeFileNameShape(name: string)
    requires '/' !in name
    ensures var ext := Ext(name);
      && Ext(TreeFileName(name)) == ext
      && TrimSuffix(TreeFileName(name), ext) == TransformFileName(TrimSuffix(name, ext))
  {
    var ext := Ext(name);
    var stem := TrimSuffix(name, ext);
    var id := TransformFileName(stem);
    var r := TreeFileName(name);
    assert r == id + ext;
    if ext == "" {
      assert name[..|name|] == name;
      assert stem == name;
      SuffixWithout(id, name, '.');
      ExtWithoutDot(id);
      assert r == id;
      assert TrimSuffix(r, ext) == r[..|r|];
    } else {
      assert HasSuffix(name, ext);
      ExtAppend(id, ext);
      assert HasSuffix(r, ext);
      assert r[..|r| - |ext|] == id;
    }
  }

  lemma ExtWithoutDot(s: string)
    requires '.' !in s
    ensures Ext(s) == ""
  {
  }

  lemma ExtAppend(x: string, e: string)
    requires e != "" && e[0] == '.' && '.' !in e[1..] && '/' !in e
    ensures Ext(x + e) == e
  {
    var s := x + e;
    forall k | |x| < k < |s|
      ensures s[k] != '.' && s[k] != '/'
    {
      assert s[k] == e[1..][k - |x| - 1] == e[k - |x|];
    }
    DotIndexAt(s, |x|, |s|);
    assert s[|x|..] == e;
  }

  /** A ".html" name keeps its extension and has its stem's identifier before it. */
  lemma HtmlTreeFileName(stem: string)
    ensures TreeFileName(stem + ".html") == TransformFileName(stem) + ".html"
  {
    var name := stem + ".html";
    ExtAppend(stem, ".html");
    assert name[..|stem|] == stem;
    assert TrimSuffix(name, ".html") == stem;
  }

  /** Label stripping keeps a name's extension and is idempotent on file names. */
  lemma TreeFileNameIdempotent(name: string)
    requires '/' !in name
    ensures TreeFileName(TreeFileName(name)) == TreeFileName(name)
  {
    TreeFileNameShape(name);
    var ext := Ext(name);
    var id := TransformFileName(TrimSuffix(name, ext));
    assert TrimSuffix(TreeFileName(name), ext) == id;
  }

  /** TreeFileName only drops characters: a character missing from the name is missing from the result. */
  lemma TreeFileNameChars(name: string, c: char)
    requires c !in name
    ensures c !in TreeFileName(name)
  {
    var ext := Ext(name);
    var stem := TrimSuffix(name, ext);
    var id := TransformFileName(stem);
    var r := TreeFileName(name);
    assert stem + ext == name;
    assert r == id + ext;
  }

  /**
    A label is stripped: a name made of a label, a space and an identifier
    without spaces, and the bare identifier, give the same cache name.
   */
  lemma LabelledName(title: string, id: string)
    requires ' ' !in id
    ensures TreeFileName(title + " " + id + ".html") == id + ".html"
    ensures TreeFileName(id + ".html") == id + ".html"
  {
    HtmlTreeFileName(title + " " + id);
    LabelStripped(title, id);
    assert title + " " + id + ".html" == (title + " " + id) + ".html";
    HtmlTreeFileName(id);
  }

  lemma LabelStripped(title: string, id: string)
    requires ' ' !in id
    ensures TransformFileName(title + " " + id) == id
  {
    assert title + " " + id == title + [' '] + id;
    LastFieldAfter(title, ' ', id);
  }

  /** Names that filepath.Join would not place in a new entry of the directory. */
  predicate IsSpecialName(name: string) {
    name == "" || name == "." || name == ".."
  }

  /**
    GenerateTreeFilePath(sourcePath, destDir): the cache path of a source
    file, directly in `destDir`. None for a label-stripped name that Join
    would fold into `destDir` itself or its parent.
   */
  function GenerateTreeFilePath(name: string, destDir: Path): (r: Option<Path>)
    ensures r.Some? <==> !IsSpecialName(TreeFileName(name))
    ensures r.Some? ==> |r.value| == |destDir| + 1 && r.value[..|destDir|] == destDir
  {
    var filename := TreeFileName(name);
    if IsSpecialName(filename) then None else Some(destDir + [filename])
  }

  /** The cache path keeps the extension of the source and ends in the label-stripped stem. */
  lemma GenerateTreeFilePathKeepsExt(name: string, destDir: Path)
    requires '/' !in name && GenerateTreeFilePath(name, destDir).Some?
    ensures var p := GenerateTreeFilePath(name, destDir).value;
      && Ext(p[|p| - 1]) == Ext(name)
      && ' ' !in TrimSuffix(p[|p| - 1], Ext(name))
  {
    TreeFileNameShape(name);
  }

  // ---------------------------------------------------------------------
  // Link rewriting

  /** url.PathUnescape of one segment; "" when it holds a malformed escape, whose error is dropped. */
  function Unescaped(segment: string): string
  {
    match PercentDecode(segment)
    case None => ""
    case Some(s) => s
  }

  /** One '/'-separated segment of a relative reference, rewritten like a cache file name. */
  function RewriteSegment(segment: string): string
  {
    TreeFileName(Unescaped(segment))
  }

  function RewriteSegments(segments: seq<string>): seq<string>
  {
    seq(|segments|, k requires 0 <= k < |segments| => RewriteSegment(segments[k]))
  }

  /** A reference url.Parse refuses, or one with a scheme, is left alone. */
  predicate KeepsHref(href: string) {
    var u := Parse(href);
    u.Failed? || u.scheme != ""
  }

  /** The value TransformHref gives `href`. */
  function RewrittenHref(href: string): string
  {
    if KeepsHref(href) then href else Join(RewriteSegments(Split(href, '/')), '/')
  }

  /** A reference without a space or a '%' is left as it is. */
  lemma PlainHrefFixed(href: string)
    requires ' ' !in href && '%' !in href
    ensures RewrittenHref(href) == href
  {
    if !KeepsHref(href) {
      SegmentsFixed(href);
      JoinSplit(href, '/');
    }
  }

  /** A segment without a space or a '%' is left as it is. */
  lemma SegmentFixpoint(segment: string)
    requires ' ' !in segment && '%' !in segment && '/' !in segment
    ensures RewriteSegment(segment) == segment
  {
    DecodeWithoutPercent(segment);
    var ext := Ext(segment);
    var stem := TrimSuffix(segment, ext);
    assert forall k :: 0 <= k < |stem| ==> stem[k] == segment[k];
  }

  lemma SegmentsFixed(href: string)
    requires ' ' !in href && '%' !in href
    ensures RewriteSegments(Split(href, '/')) == Split(href, '/')
  {
    var parts := Split(href, '/');
    SplitPieces(href, '/');
    SplitKeepsAbsent(href, '/', ' ');
    SplitKeepsAbsent(href, '/', '%');
    forall k | 0 <= k < |parts|
      ensures RewriteSegment(parts[k]) == parts[k]
    {
      SegmentFixpoint(parts[k]);
    }
  }

  /** A character missing from `s` is missing from every piece of its split. */
  lemma {:induction false} SplitKeepsAbsent(s: string, sep: char, c: char)
    requires c !in s
    ensures forall k :: 0 <= k < |Split(s, sep)| ==> c !in Split(s, sep)[k]
    decreases |s|
  {
    var i := FirstIndex(s, sep);
    if i < |s| {
      var head, rest := s[..i], s[i + 1..];
      assert forall k :: 0 <= k < |head| ==> head[k] in s;
      assert forall k :: 0 <= k < |rest| ==> rest[k] in s;
      SplitKeepsAbsent(s[i + 1..], sep, c);
    }
  }

  /**
    When url.Parse accepts a reference without a scheme and it holds no
    escape, the rewritten reference has the same '/'-separated segments, each
    rewritten on its own.
   */
  lemma HrefMapsSegments(href: string)
    requires !KeepsHref(href) && '%' !in href
    ensures var segments := Split(RewrittenHref(href), '/');
      && |segments| == |Split(href, '/')|
      && forall k :: 0 <= k < |segments| ==> segments[k] == RewriteSegment(Split(href, '/')[k])
  {
    var parts := Split(href, '/');
    var mapped := RewriteSegments(parts);
    SplitPieces(href, '/');
    SplitKeepsAbsent(href, '/', '%');
    forall k | 0 <= k < |mapped|
      ensures '/' !in mapped[k]
    {
      DecodeWithoutPercent(parts[k]);
      TreeFileNameChars(parts[k], '/');
    }
    SplitJoin(mapped, '/');
  }

  /** Rewriting an escape-free segment twice is rewriting it once. */
  lemma SegmentIdempotent(segment: string)
    requires '%' !in segment && '/' !in segment
    ensures RewriteSegment(RewriteSegment(segment)) == RewriteSegment(segment)
  {
    DecodeWithoutPercent(segment);
    var r := TreeFileName(segment);
    TreeFileNameChars(segment, '%');
    DecodeWithoutPercent(r);
    TreeFileNameIdempotent(segment);
  }

  /** A segment naming a labelled document, without escapes, loses its label. */
  lemma LabelledSegment(title: string, id: string)
    requires ' ' !in id && '%' !in title && '%' !in id
    ensures RewriteSegment(title + " " + id + ".html") == id + ".html"
  {
    var s := title + " " + id + ".html";
    assert '%' !in s by {
      assert forall k :: 0 <= k < |s| ==> s[k] == (if k < |title| then title[k] else if k == |title| then ' '
        else if k < |title| + 1 + |id| then id[k - |title| - 1] else ".html"[k - |title| - 1 - |id|]);
    }
    DecodeWithoutPercent(s);
    LabelledName(title, id);
  }

  /** The steps TransformHref takes on one segment compute its rewrite. */
  lemma SegmentSteps(segment: string)
    ensures var name := Unescaped(segment);
      RewriteSegment(segment) == LastField(TrimSuffix(name, Ext(name)), ' ') + Ext(name)
  {
  }

  /** The steps of TransformHref's loop body on one segment, before it is stored back. */
  method RewriteOneSegment(segment: string) returns (r: string)
    ensures r == RewriteSegment(segment)
  {
    r := Unescaped(segment);
    var ext := Ext(r);
    var filename := TrimSuffix(r, ext);
    var pieces := Split(filename, ' ');
    r := pieces[|pieces| - 1] + ext;
    SegmentSteps(segment);
  }

  /** TransformHref's loop: every segment is overwritten in place by its rewrite. */
  method RewriteEachSegment(parts: seq<string>) returns (segments: seq<string>)
    ensures segments == RewriteSegments(parts)
  {
    ghost var rewritten := RewriteSegments(parts);
    segments := parts;
    var i := 0;
    while i < |segments|
      invariant 0 <= i <= |segments| == |parts|
      invariant forall k :: 0 <= k < i ==> segments[k] == rewritten[k]
      invariant forall k :: i <= k < |parts| ==> segments[k] == parts[k]
    {
      var segment := RewriteOneSegment(segments[i]);
      segments := segments[i := segment];
      i := i + 1;
    }
  }

  /**
    TransformHref: url.Parse, then each segment of strings.Split(href, "/")
    is overwritten in place by its rewrite, and the segments are joined again.
   */
  method TransformHref(href: string) returns (r: string)
    ensures r == RewrittenHref(href)
  {
    var u := Parse(href);
    if u.Failed? || u.scheme != "" {
      return href;
    }
    var parts := Split(href, '/');
    var segments := RewriteEachSegment(parts);
    r := Join(segments, '/');
    assert !KeepsHref(href);
    assert RewrittenHref(href) == Join(RewriteSegments(parts), '/');
  }

  /** The attributes whose values TransformHTMLNode rewrites. */
  predicate IsLink(key: string) {
    key == "href" || key == "src"
  }

  /** TransformHTMLNode on one attribute: href and src values of an element are rewritten. */
  function RewriteAttribute(kind: NodeType, a: Attribute): Attribute
  {
    if kind == ElementNode && IsLink(a.key) then a.(val := RewrittenHref(a.val)) else a
  }

  /**
    The attribute list after TransformHTMLNode: same length, same keys in the
    same order; only href and src values of an element change, to their
    rewritten references; a node that is not an element keeps its list.
   */
  function RewriteAttributes(kind: NodeType, attrs: seq<Attribute>): (r: seq<Attribute>)
    ensures |r| == |attrs|
    ensures kind != ElementNode ==> r == attrs
    ensures forall k :: 0 <= k < |r| ==> r[k].key == attrs[k].key
    ensures forall k :: 0 <= k < |r| && !IsLink(attrs[k].key) ==> r[k] == attrs[k]
    ensures forall k :: 0 <= k < |r| && kind == ElementNode && IsLink(attrs[k].key) ==>
      r[k].val == RewrittenHref(attrs[k].val)
  {
    seq(|attrs|, k requires 0 <= k < |attrs| => RewriteAttribute(kind, attrs[k]))
  }

  /** TransformHTMLNode: the attribute values of an element node overwritten in place. */
  method TransformHTMLNode(kind: NodeType, attr: array<Attribute>)
    modifies attr
    ensures attr[..] == RewriteAttributes(kind, old(attr[..]))
  {
    ghost var before := attr[..];
    if kind != ElementNode {
      AllRewritten(kind, before, attr[..]);
      return;
    }
    var i := 0;
    while i < attr.Length
      invariant 0 <= i <= attr.Length == |before|
      invariant forall k {:trigger attr[k]} :: 0 <= k < i ==> attr[k] == RewriteAttribute(kind, before[k])
      invariant forall k {:trigger attr[k]} :: i <= k < attr.Length ==> attr[k] == before[k]
    {
      RewriteAttributeAt(kind, attr, i);
      i := i + 1;
    }
    AllRewritten(kind, before, attr[..]);
  }

  /** The body of TransformHTMLNode's loop: the attribute at `i` of an element rewritten, the others untouched. */
  method RewriteAttributeAt(kind: NodeType, attr: array<Attribute>, i: nat)
    requires kind == ElementNode && i < attr.Length
    modifies attr
    ensures attr[i] == RewriteAttribute(kind, old(attr[i]))
    ensures forall k :: 0 <= k < attr.Length && k != i ==> attr[k] == old(attr[k])
  {
    var a := attr[i];
    if IsLink(a.key) {
      var v := TransformHref(a.val);
      RewriteLink(kind, a, v);
      attr[i] := a.(val := v);
    } else {
      RewriteOther(kind, a);
    }
  }

  lemma RewriteLink(kind: NodeType, a: Attribute, v: string)
    requires kind == ElementNode && IsLink(a.key) && v == RewrittenHref(a.val)
    ensures RewriteAttribute(kind, a) == a.(val := v)
  {
  }

  lemma RewriteOther(kind: NodeType, a: Attribute)
    requires !IsLink(a.key)
    ensures RewriteAttribute(kind, a) == a
  {
  }

  /** A list holding the rewrite of each attribute, position by position, is RewriteAttributes. */
  lemma AllRewritten(kind: NodeType, before: seq<Attribute>, s: seq<Attribute>)
    requires |s| == |before|
    requires forall k :: 0 <= k < |s| ==> s[k] == RewriteAttribute(kind, before[k])
    ensures s == RewriteAttributes(kind, before)
  {
  }

  /** A node and its subtree after TransformHTMLNode has run on every node. */
  function RewrittenNode(n: HNode): HNode
    decreases n
  {
    HNode(n.kind, n.data, RewriteAttributes(n.kind, n.attrs),
      seq(|n.children|, k requires 0 <= k < |n.children| => RewrittenNode(n.children[k])))
  }

  /** TraverseHTML(markup, TransformHTMLNode): every node of the chain and below it rewritten. */
  function RewriteLinks(chain: Chain): (r: Chain)
    ensures |r| == |chain|
  {
    seq(|chain|, k requires 0 <= k < |chain| => RewrittenNode(chain[k]))
  }

  /** A node without its subtree: what TransformHTMLNode sees and changes. */
  function Shallow(n: HNode): HNode {
    n.(children := [])
  }

  /** The nodes of a traversal, each without its subtree. */
  function Shallows(nodes: seq<HNode>): (r: seq<HNode>)
    ensures |r| == |nodes|
  {
    seq(|nodes|, k requires 0 <= k < |nodes| => Shallow(nodes[k]))
  }

  /** The nodes of a traversal, each as TransformHTMLNode leaves it, without its subtree. */
  function RewrittenShallows(nodes: seq<HNode>): (r: seq<HNode>)
    ensures |r| == |nodes|
  {
    seq(|nodes|, k requires 0 <= k < |nodes| => Shallow(RewrittenNode(nodes[k])))
  }

  /**
    RewriteLinks is the traversal: the nodes of the rewritten chain, in
    preorder, are the original nodes in preorder, each with its attributes
    rewritten by TransformHTMLNode.
   */
  lemma {:induction false} RewriteLinksPreorder(chain: Chain)
    ensures Shallows(Preorder(RewriteLinks(chain))) == RewrittenShallows(Preorder(chain))
    decreases chain
  {
    if chain != [] {
      var r := RewriteLinks(chain);
      assert r[0].children == RewriteLinks(chain[0].children);
      assert r[1..] == RewriteLinks(chain[1..]);
      RewriteLinksPreorder(chain[0].children);
      RewriteLinksPreorder(chain[1..]);
      var a := Preorder(chain[0].children);
      var b := Preorder(chain[1..]);
      var a' := Preorder(r[0].children);
      var b' := Preorder(r[1..]);
      ShallowsAppend([r[0]] + a', b');
      ShallowsAppend([r[0]], a');
      RewrittenShallowsAppend([chain[0]] + a, b);
      RewrittenShallowsAppend([chain[0]], a);
    }
  }

  lemma ShallowsAppend(x: seq<HNode>, y: seq<HNode>)
    ensures Shallows(x + y) == Shallows(x) + Shallows(y)
  {
  }

  lemma RewrittenShallowsAppend(x: seq<HNode>, y: seq<HNode>)
    ensures RewrittenShallows(x + y) == RewrittenShallows(x) + RewrittenShallows(y)
  {
  }

  // ---------------------------------------------------------------------
  // Article extraction

  /** Why a document yields no cache content: the error values of TransformHTMLContent. */
  datatype ContentError =
    | ParseError(msg: string)
    | NoTitle
    | NoArticle
    | EmptyTitle     // title.FirstChild is nil: a nil dereference in the source
    | RenderError(msg: string)

  /** The text of the title element, the first child's Data. */
  function TitleText(title: HNode): string
    requires title.children != []
  {
    title.children[0].data
  }

  /**
    The lookups of TransformHTMLContent on the rewritten document: the title
    under <html>/<head>, checked before the <article> under <html>/<body>;
    the article then takes the attributes of the <html> element followed by
    data-title, and loses its own.
   */
  function ExtractArticle(doc: Chain): (r: Result<HNode, ContentError>)
    ensures r == Err(NoTitle) <==> !Occurs(Find(Find(doc, "html"), "head"), "title")
    ensures r == Err(NoArticle) <==>
      Occurs(Find(Find(doc, "html"), "head"), "title") && !Occurs(Find(Find(doc, "html"), "body"), "article")
    ensures var title := Find(Find(Find(doc, "html"), "head"), "title");
      r == Err(EmptyTitle) <==>
        title != [] && Find(Find(Find(doc, "html"), "body"), "article") != [] && title[0].children == []
    ensures r.Ok? ==> && IsTag(r.value, "article")
                      && Find(doc, "html") != [] && |r.value.attrs| >= 1
                      && r.value.attrs == Find(doc, "html")[0].attrs + [Attribute("data-title", r.value.attrs[|r.value.attrs| - 1].val)]
    ensures var article := Find(Find(Find(doc, "html"), "body"), "article");
      r.Ok? ==> article != [] && r.value == article[0].(attrs := r.value.attrs)
  {
    var markup := Find(doc, "html");
    var head := Find(markup, "head");
    var title := Find(head, "title");
    FindSound(head, "title");
    FindSound(Find(markup, "body"), "article");
    if title == [] then Err(NoTitle)
    else
      var article := Find(Find(markup, "body"), "article");
      if article == [] then Err(NoArticle)
      else if title[0].children == [] then Err(EmptyTitle)
      else
        assert head != [] && markup != [];
        Ok(article[0].(attrs := markup[0].attrs + [Attribute("data-title", TitleText(title[0]))]))
  }

  /** The data-title stamped on the article is the text of the document's title. */
  lemma StampedTitle(doc: Chain)
    requires ExtractArticle(doc).Ok?
    ensures var title := Find(Find(Find(doc, "html"), "head"), "title");
      var attrs := ExtractArticle(doc).value.attrs;
      title != [] && title[0].children != [] && attrs[|attrs| - 1] == Attribute("data-title", TitleText(title[0]))
  {
  }

  /** TransformHTMLContent's value: parse, rewrite links, extract the article, render it. */
  function TransformedContent(codec: Codec, input: string): Result<string, ContentError>
  {
    match codec.parse(input)
    case Err(e) => Err(ParseError(e))
    case Ok(doc) =>
      match ExtractArticle(RewriteLinks([doc]))
      case Err(e) => Err(e)
      case Ok(article) =>
        match codec.render(article)
        case Err(e) => Err(RenderError(e))
        case Ok(out) => Ok(out)
  }

  /**
    TransformHTMLContent: the output is the rendered article element, and it
    exists only when the document parses and has a title and an article.
   */
  method TransformHTMLContent(codec: Codec, input: string) returns (r: Result<string, ContentError>)
    ensures r == TransformedContent(codec, input)
    ensures r.Ok? ==> codec.parse(input).Ok? && ExtractArticle(RewriteLinks([codec.parse(input).value])).Ok?
    ensures r.Ok? ==> codec.render(ExtractArticle(RewriteLinks([codec.parse(input).value])).value) == Ok(r.value)
  {
    var parsed := codec.parse(input);
    if parsed.Err? {
      return Err(ParseError(parsed.error));
    }
    var markup := RewriteLinks([parsed.value]);
    var doc := markup;
    markup := FindHTML(doc, "html");
    var head := FindHTML(markup, "head");
    var title := FindHTML(head, "title");
    if title == [] {
      assert ExtractArticle(doc) == Err(NoTitle);
      return Err(NoTitle);
    }
    var body := FindHTML(markup, "body");
    var article := FindHTML(body, "article");
    if article == [] {
      assert ExtractArticle(doc) == Err(NoArticle);
      return Err(NoArticle);
    }
    if title[0].children == [] {
      assert ExtractArticle(doc) == Err(EmptyTitle);
      return Err(EmptyTitle);
    }
    assert markup != [] by {
      assert head != [];
    }
    var stamped := article[0].(attrs := markup[0].attrs + [Attribute("data-title", title[0].children[0].data)]);
    assert ExtractArticle(doc) == Ok(stamped);
    var out := codec.render(stamped);
    if out.Err? {
      return Err(RenderError(out.error));
    }
    return Ok(out.value);
  }

  // ---------------------------------------------------------------------
  // Mirroring the source directory into the cache

  datatype TransformError =
    | Io(fs: FsError)
    | Content(content: ContentError)
    | SpecialName(name: string)   // a label-stripped name that is "", "." or ".."

  /** The cache after a step of the pass, and the error that ended the pass, if any. */
  datatype Written = Written(disk: seq<Entry>, err: Option<TransformError>)

  /**
    TransformTreeFile followed by CopyFile: the cache file is opened (created
    empty when new) before anything is written; a non-HTML file is copied as
    it is, an HTML file is replaced by its transformed content. When the
    transform fails, the file opened for it stays in the cache.
   */
  function TransformFile(codec: Codec, name: string, data: string, destDir: Path, disk: seq<Entry>): Written
  {
    match GenerateTreeFilePath(name, destDir)
    case None => Written(disk, Some(SpecialName(name)))
    case Some(path) =>
      match Open(disk, path)
      case Err(e) => Written(disk, Some(Io(e)))
      case Ok(created) =>
        if Ext(name) != ".html" then Written(Overwrite(created, path, data), None)
        else match TransformedContent(codec, data)
          case Err(e) => Written(created, Some(Content(e)))
          case Ok(out) => Written(Overwrite(created, path, out), None)
  }

  /** TransformTreeDir over a listing: entries in order, the first error ends the pass. */
  function TransformEntries(codec: Codec, entries: seq<Entry>, destDir: Path, disk: seq<Entry>): Written
    decreases entries, 0
  {
    if entries == [] then Written(disk, None)
    else
      var w := TransformEntry(codec, entries[0], destDir, disk);
      if w.err.Some? then w else TransformEntries(codec, entries[1..], destDir, w.disk)
  }

  /** One entry of a listing: a directory is mirrored into its label-stripped name, a file is transformed. */
  function TransformEntry(codec: Codec, e: Entry, destDir: Path, disk: seq<Entry>): Written
    decreases e
  {
    match e
    case File(name, data) => TransformFile(codec, name, data, destDir, disk)
    case Dir(name, sub) =>
      var dirName := TransformFileName(name);
      if IsSpecialName(dirName) then Written(disk, Some(SpecialName(name)))
      else TransformEntries(codec, sub, destDir + [dirName], disk)
  }

  /** TransformTreeFile and CopyFile, in the order the source performs their steps. */
  method TransformTreeFile(codec: Codec, name: string, data: string, destDir: Path, disk: seq<Entry>) returns (w: Written)
    ensures w == TransformFile(codec, name, data, destDir, disk)
  {
    var destPath := GenerateTreeFilePath(name, destDir);
    if destPath.None? {
      return Written(disk, Some(SpecialName(name)));
    }
    var created := Open(disk, destPath.value);
    if created.Err? {
      return Written(disk, Some(Io(created.error)));
    }
    if Ext(name) != ".html" {
      return Written(Overwrite(created.value, destPath.value, data), None);
    }
    var out := TransformHTMLContent(codec, data);
    if out.Err? {
      return Written(created.value, Some(Content(out.error)));
    }
    return Written(Overwrite(created.value, destPath.value, out.value), None);
  }

  /**
    TransformTreeDir: the loop over the listing, recursing into directories
    under their label-stripped names and returning at the first error.
   */
  method TransformTreeDir(codec: Codec, entries: seq<Entry>, destDir: Path, disk: seq<Entry>) returns (w: Written)
    ensures w == TransformEntries(codec, entries, destDir, disk)
    decreases entries
  {
    var current := disk;
    for i := 0 to |entries|
      invariant TransformEntries(codec, entries, destDir, disk) == TransformEntries(codec, entries[i..], destDir, current)
    {
      ghost var rest := entries[i..];
      assert rest[0] == entries[i] && rest[1..] == entries[i + 1..];
      var step: Written;
      if entries[i].Dir? {
        var dirName := TransformFileName(entries[i].name);
        if IsSpecialName(dirName) {
          return Written(current, Some(SpecialName(entries[i].name)));
        }
        step := TransformTreeDir(codec, entries[i].entries, destDir + [dirName], current);
      } else {
        step := TransformTreeFile(codec, entries[i].name, entries[i].data, destDir, current);
      }
      assert step == TransformEntry(codec, entries[i], destDir, current);
      if step.err.Some? {
        return step;
      }
      current := step.disk;
    }
    return Written(current, None);
  }

  /** TransformTree: the cache directory is emptied, then the source tree is mirrored into it. */
  method TransformTree(codec: Codec, source: seq<Entry>) returns (w: Written)
    ensures w == TransformEntries(codec, source, [], [])
    ensures WellFormed(w.disk)
  {
    w := TransformTreeDir(codec, source, [], []);
    TransformKeepsWellFormed(codec, source, [], []);
  }

  /**
    Running the pass over `xs + ys` is running it over `xs` and, unless that
    failed, over `ys` from the cache `xs` left: the first error aborts the
    remaining entries.
   */
  lemma {:induction false} TransformEntriesAppend(codec: Codec, xs: seq<Entry>, ys: seq<Entry>, destDir: Path, disk: seq<Entry>)
    ensures var w := TransformEntries(codec, xs, destDir, disk);
      TransformEntries(codec, xs + ys, destDir, disk)
        == if w.err.Some? then w else TransformEntries(codec, ys, destDir, w.disk)
    decreases |xs|
  {
    if xs == [] {
      assert xs + ys == ys;
    } else {
      assert (xs + ys)[0] == xs[0] && (xs + ys)[1..] == xs[1..] + ys;
      var w := TransformEntry(codec, xs[0], destDir, disk);
      if w.err.None? {
        TransformEntriesAppend(codec, xs[1..], ys, destDir, w.disk);
      }
    }
  }

  /** After an entry fails, no later entry changes the cache or the outcome. */
  lemma StopsAtFirstFailure(codec: Codec, xs: seq<Entry>, e: Entry, later: seq<Entry>, destDir: Path, disk: seq<Entry>)
    requires TransformEntries(codec, xs, destDir, disk).err.None?
    requires TransformEntry(codec, e, destDir, TransformEntries(codec, xs, destDir, disk).disk).err.Some?
    ensures TransformEntries(codec, xs + [e] + later, destDir, disk)
      == TransformEntry(codec, e, destDir, TransformEntries(codec, xs, destDir, disk).disk)
  {
    TransformEntriesAppend(codec, xs, [e] + later, destDir, disk);
    assert xs + [e] + later == xs + ([e] + later);
    assert ([e] + later)[0] == e;
  }

  /**
    A file the pass writes holds the source bytes when it is not an HTML
    file, and the transformed document when it is.
   */
  lemma TransformFileContent(codec: Codec, name: string, data: string, destDir: Path, disk: seq<Entry>)
    requires TransformFile(codec, name, data, destDir, disk).err.None?
    ensures GenerateTreeFilePath(name, destDir).Some?
    ensures var path := GenerateTreeFilePath(name, destDir).value;
      var f := Lookup(TransformFile(codec, name, data, destDir, disk).disk, path);
      && f.Some? && f.value.File?
      && f.value.data == if Ext(name) != ".html" then data else TransformedContent(codec, data).value
  {
    var path := GenerateTreeFilePath(name, destDir).value;
    OpenThenLookup(disk, path);
    OverwriteThenLookup(Open(disk, path).value, path, if Ext(name) != ".html" then data else TransformedContent(codec, data).value);
  }

  /**
    When the transform of an HTML document fails, the pass stops with that
    error and the cache keeps the file opened for it: empty when it was new.
   */
  lemma FailedTransformLeavesFile(codec: Codec, name: string, data: string, destDir: Path, disk: seq<Entry>)
    requires Ext(name) == ".html" && TransformedContent(codec, data).Err?
    requires GenerateTreeFilePath(name, destDir).Some?
    requires Lookup(disk, GenerateTreeFilePath(name, destDir).value).None?
    requires Open(disk, GenerateTreeFilePath(name, destDir).value).Ok?
    ensures var path := GenerateTreeFilePath(name, destDir).value;
      var w := TransformFile(codec, name, data, destDir, disk);
      && w.err == Some(Content(TransformedContent(codec, data).error))
      && Lookup(w.disk, path) == Some(File(path[|path| - 1], ""))
  {
    OpenThenLookup(disk, GenerateTreeFilePath(name, destDir).value);
  }

  /** The pass keeps every cache listing in name order. */
  lemma {:induction false} TransformKeepsWellFormed(codec: Codec, entries: seq<Entry>, destDir: Path, disk: seq<Entry>)
    requires WellFormed(disk)
    ensures WellFormed(TransformEntries(codec, entries, destDir, disk).disk)
    decreases entries, 0
  {
    if entries != [] {
      TransformEntryKeepsWellFormed(codec, entries[0], destDir, disk);
      var w := TransformEntry(codec, entries[0], destDir, disk);
      if w.err.None? {
        TransformKeepsWellFormed(codec, entries[1..], destDir, w.disk);
      }
    }
  }

  lemma {:induction false} TransformEntryKeepsWellFormed(codec: Codec, e: Entry, destDir: Path, disk: seq<Entry>)
    requires WellFormed(disk)
    ensures WellFormed(TransformEntry(codec, e, destDir, disk).disk)
    decreases e
  {
    match e
    case Dir(name, sub) =>
      if !IsSpecialName(TransformFileName(name)) {
        TransformKeepsWellFormed(codec, sub, destDir + [TransformFileName(name)], disk);
      }
    case File(name, data) =>
      var path := GenerateTreeFilePath(name, destDir);
      if path.Some? && Open(disk, path.value).Ok? {
        OpenKeepsWellFormed(disk, path.value);
        var created := Open(disk, path.value).value;
        OverwriteKeepsWellFormed(created, path.value, data);
        if TransformedContent(codec, data).Ok? {
          OverwriteKeepsWellFormed(created, path.value, TransformedContent(codec, data).value);
        }
      }
  }
}
