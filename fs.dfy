/**
  The directory trees the pipeline reads and writes, as values. A directory
  is the sequence of its entries in the order os.ReadDir and fs.Glob list
  them: by name, bytewise. Paths are sequences of names below a directory.
 */
module Fs {
  import opened Wrappers

  type Path = seq<string>

  datatype Entry = File(name: string, data: string) | Dir(name: string, entries: seq<Entry>)

  /** ENOTDIR, EISDIR and ENOENT. */
  datatype FsError = NotADirectory | IsADirectory | NotFound

  /** Bytewise order of names. */
  predicate NameLess(a: string, b: string)
    decreases |a|
  {
    |b| > 0 && (|a| == 0 || a[0] < b[0] || (a[0] == b[0] && NameLess(a[1..], b[1..])))
  }

  lemma {:induction false} NameLessIrreflexive(a: string)
    ensures !NameLess(a, a)
    decreases |a|
  {
    if |a| > 0 {
      NameLessIrreflexive(a[1..]);
    }
  }

  lemma {:induction false} NameLessTransitive(a: string, b: string, c: string)
    requires NameLess(a, b) && NameLess(b, c)
    ensures NameLess(a, c)
    decreases |a|
  {
    if |a| > 0 && a[0] == b[0] && b[0] == c[0] {
      NameLessTransitive(a[1..], b[1..], c[1..]);
    }
  }

  lemma {:induction false} NameLessTotal(a: string, b: string)
    requires a != b
    ensures NameLess(a, b) || NameLess(b, a)
    decreases |a|
  {
    if |a| > 0 && |b| > 0 && a[0] == b[0] {
      assert a == [a[0]] + a[1..] && b == [b[0]] + b[1..];
      NameLessTotal(a[1..], b[1..]);
    }
  }

  /** The entries of one directory are listed by strictly increasing name. */
  ghost predicate Sorted(entries: seq<Entry>) {
    forall i, j :: 0 <= i < j < |entries| ==> NameLess(entries[i].name, entries[j].name)
  }

  /** Every directory of the tree lists its entries in name order. */
  ghost predicate WellFormed(entries: seq<Entry>)
    decreases entries
  {
    && Sorted(entries)
    && forall k :: 0 <= k < |entries| && entries[k].Dir? ==> WellFormed(entries[k].entries)
  }

  /** Position of the first entry at or after `j` called `name`, or `|entries|` when there is none. */
  function IndexFrom(entries: seq<Entry>, name: string, j: nat): (i: nat)
    requires j <= |entries|
    ensures j <= i <= |entries|
    ensures i < |entries| ==> entries[i].name == name
    ensures forall k :: j <= k < i ==> entries[k].name != name
    decreases |entries| - j
  {
    if j == |entries| then j
    else if entries[j].name == name then j
    else IndexFrom(entries, name, j + 1)
  }

  /** Position of the entry called `name`, or `|entries|` when there is none. */
  function IndexOf(entries: seq<Entry>, name: string): (i: nat)
    ensures i <= |entries|
    ensures i < |entries| ==> entries[i].name == name
    ensures forall k :: 0 <= k < i ==> entries[k].name != name
  {
    IndexFrom(entries, name, 0)
  }

  /** The entry at `path`, if every directory on the way exists. The empty path names the directory itself. */
  function Lookup(entries: seq<Entry>, path: Path): Option<Entry>
    decreases path
  {
    if path == [] then Some(Dir(".", entries))
    else
      var i := IndexOf(entries, path[0]);
      if i == |entries| then None
      else if |path| == 1 then Some(entries[i])
      else match entries[i]
        case File(_, _) => None
        case Dir(_, sub) => Lookup(sub, path[1..])
  }

  /** Where an entry called `name` goes, searching from `j`, to keep the listing in name order. */
  function InsertionFrom(entries: seq<Entry>, name: string, j: nat): (p: nat)
    requires j <= |entries|
    ensures j <= p <= |entries|
    ensures forall k :: j <= k < p ==> !NameLess(name, entries[k].name)
    ensures p < |entries| ==> NameLess(name, entries[p].name)
    decreases |entries| - j
  {
    if j == |entries| then j
    else if NameLess(name, entries[j].name) then j
    else InsertionFrom(entries, name, j + 1)
  }

  /** Where an entry called `name` goes to keep the listing in name order. */
  function InsertionPoint(entries: seq<Entry>, name: string): (p: nat)
    ensures p <= |entries|
    ensures forall k :: 0 <= k < p ==> !NameLess(name, entries[k].name)
    ensures p < |entries| ==> NameLess(name, entries[p].name)
  {
    InsertionFrom(entries, name, 0)
  }

  function Insert(entries: seq<Entry>, e: Entry): seq<Entry>
  {
    var p := InsertionPoint(entries, e.name);
    entries[..p] + [e] + entries[p..]
  }

  /**
    os.MkdirAll of the parent directories of `path`, then os.OpenFile(path,
    O_CREATE|O_WRONLY): a missing file is created empty, an existing one is
    kept as it is. It fails when a directory on the way is a file, or when
    `path` names a directory.
   */
  function Open(entries: seq<Entry>, path: Path): Result<seq<Entry>, FsError>
    requires |path| >= 1
    decreases path
  {
    var name := path[0];
    var i := IndexOf(entries, name);
    if |path| == 1 then
      if i == |entries| then Ok(Insert(entries, File(name, "")))
      else if entries[i].File? then Ok(entries)
      else Err(IsADirectory)
    else if i == |entries| then
      match Open([], path[1..])
      case Err(e) => Err(e)
      case Ok(sub) => Ok(Insert(entries, Dir(name, sub)))
    else match entries[i]
      case File(_, _) => Err(NotADirectory)
      case Dir(_, sub) =>
        match Open(sub, path[1..])
        case Err(e) => Err(e)
        case Ok(sub') => Ok(entries[i := Dir(name, sub')])
  }

  /** A write of `data` to the open file at `path`, replacing what it held. */
  function Overwrite(entries: seq<Entry>, path: Path, data: string): seq<Entry>
    requires |path| >= 1
    decreases path
  {
    var i := IndexOf(entries, path[0]);
    if i == |entries| then entries
    else match entries[i]
      case File(name, _) => if |path| == 1 then entries[i := File(name, data)] else entries
      case Dir(name, sub) => if |path| == 1 then entries else entries[i := Dir(name, Overwrite(sub, path[1..], data))]
  }

  datatype Stat = Exists(entry: Entry) | NotExist | NotDir

  /**
    os.Stat of `path`: the entry when it exists, ENOENT when a name on the
    way is missing, ENOTDIR when a name before the last one is a file.
   */
  function StatPath(entries: seq<Entry>, path: Path): (r: Stat)
    ensures r.Exists? <==> Lookup(entries, path).Some?
    ensures r.Exists? ==> Lookup(entries, path) == Some(r.entry)
    decreases path
  {
    if path == [] then Exists(Dir(".", entries))
    else
      var i := IndexOf(entries, path[0]);
      if i == |entries| then NotExist
      else if |path| == 1 then Exists(entries[i])
      else match entries[i]
        case File(_, _) => NotDir
        case Dir(_, sub) => StatPath(sub, path[1..])
  }

  /** os.ReadFile: the contents of the file at `path`. */
  function ReadFile(entries: seq<Entry>, path: Path): (r: Result<string, FsError>)
    ensures r.Ok? <==> Lookup(entries, path).Some? && Lookup(entries, path).value.File?
    ensures r.Ok? ==> r.value == Lookup(entries, path).value.data
  {
    match StatPath(entries, path)
    case NotExist => Err(NotFound)
    case NotDir => Err(NotADirectory)
    case Exists(e) => if e.File? then Ok(e.data) else Err(IsADirectory)
  }

  lemma InsertFinds(entries: seq<Entry>, e: Entry)
    requires IndexOf(entries, e.name) == |entries|
    ensures IndexOf(Insert(entries, e), e.name) == InsertionPoint(entries, e.name)
    ensures Insert(entries, e)[InsertionPoint(entries, e.name)] == e
  {
    InsertShape(entries, e);
    IndexOfIsFirst(Insert(entries, e), e.name, InsertionPoint(entries, e.name));
  }

  /** IndexOf is the first position holding `name`. */
  lemma IndexOfIsFirst(entries: seq<Entry>, name: string, i: nat)
    requires i <= |entries|
    requires i < |entries| ==> entries[i].name == name
    requires forall k :: 0 <= k < i ==> entries[k].name != name
    ensures IndexOf(entries, name) == i
  {
  }

  lemma UpdateFinds(entries: seq<Entry>, i: nat, e: Entry)
    requires i < |entries| && IndexOf(entries, e.name) == i
    ensures IndexOf(entries[i := e], e.name) == i
  {
    IndexOfIsFirst(entries[i := e], e.name, i);
  }

  /**
    After a successful Open the file at `path` exists: it keeps what it held
    when it was there already, and is empty when it is new.
   */
  lemma OpenThenLookup(entries: seq<Entry>, path: Path)
    requires |path| >= 1 && Open(entries, path).Ok?
    ensures Lookup(entries, path).Some? ==> Lookup(Open(entries, path).value, path) == Lookup(entries, path)
    ensures Lookup(entries, path).None? ==> Lookup(Open(entries, path).value, path) == Some(File(path[|path| - 1], ""))
    ensures Lookup(entries, path).Some? ==> Lookup(entries, path).value.File?
  {
    if Lookup(entries, path).Some? {
      OpenKeepsExisting(entries, path);
    } else {
      OpenCreatesMissing(entries, path);
    }
  }

  /** Opening an existing entry succeeds only on a file, and leaves it as it was. */
  lemma {:induction false} OpenKeepsExisting(entries: seq<Entry>, path: Path)
    requires |path| >= 1 && Open(entries, path).Ok? && Lookup(entries, path).Some?
    ensures Lookup(Open(entries, path).value, path) == Lookup(entries, path)
    ensures Lookup(entries, path).value.File?
    decreases path
  {
    var i := IndexOf(entries, path[0]);
    if |path| > 1 {
      var sub := Open(entries[i].entries, path[1..]).value;
      OpenKeepsExisting(entries[i].entries, path[1..]);
      var out := Open(entries, path).value;
      assert Lookup(out, path) == Lookup(sub, path[1..]) by {
        assert out == entries[i := Dir(path[0], sub)];
        UpdateFinds(entries, i, out[i]);
      }
    }
  }

  /** Opening a missing file creates it empty, with the directories on the way. */
  lemma {:induction false} OpenCreatesMissing(entries: seq<Entry>, path: Path)
    requires |path| >= 1 && Open(entries, path).Ok? && Lookup(entries, path).None?
    ensures Lookup(Open(entries, path).value, path) == Some(File(path[|path| - 1], ""))
    decreases path
  {
    var name := path[0];
    var i := IndexOf(entries, name);
    var out := Open(entries, path).value;
    if |path| == 1 {
      InsertFinds(entries, File(name, ""));
    } else if i == |entries| {
      var sub := Open([], path[1..]).value;
      OpenCreatesMissing([], path[1..]);
      assert Lookup(out, path) == Lookup(sub, path[1..]) by {
        assert out == Insert(entries, Dir(name, sub));
        InsertFinds(entries, Dir(name, sub));
      }
    } else {
      var sub := Open(entries[i].entries, path[1..]).value;
      OpenCreatesMissing(entries[i].entries, path[1..]);
      assert Lookup(out, path) == Lookup(sub, path[1..]) by {
        assert out == entries[i := Dir(name, sub)];
        UpdateFinds(entries, i, out[i]);
      }
    }
  }

  /** A write replaces the contents of the file at `path` and keeps its name. */
  lemma {:induction false} OverwriteThenLookup(entries: seq<Entry>, path: Path, data: string)
    requires |path| >= 1 && Lookup(entries, path).Some? && Lookup(entries, path).value.File?
    ensures Lookup(Overwrite(entries, path, data), path) == Some(File(Lookup(entries, path).value.name, data))
    decreases path
  {
    var i := IndexOf(entries, path[0]);
    var out := Overwrite(entries, path, data);
    if |path| > 1 {
      OverwriteThenLookup(entries[i].entries, path[1..], data);
    }
    UpdateFinds(entries, i, out[i]);
  }

  lemma InsertSorted(entries: seq<Entry>, e: Entry)
    requires Sorted(entries) && IndexOf(entries, e.name) == |entries|
    ensures Sorted(Insert(entries, e))
  {
    var p := InsertionPoint(entries, e.name);
    var r := Insert(entries, e);
    InsertShape(entries, e);
    forall i, j | 0 <= i < j < |r|
      ensures NameLess(r[i].name, r[j].name)
    {
      if j == p {
        NameLessTotal(entries[i].name, e.name);
      } else if i == p && j - 1 > p {
        NameLessTransitive(e.name, entries[p].name, entries[j - 1].name);
      }
    }
  }

  /** Where each entry of the listing lands after Insert. */
  lemma InsertShape(entries: seq<Entry>, e: Entry)
    ensures var p := InsertionPoint(entries, e.name);
      var r := Insert(entries, e);
      |r| == |entries| + 1 && r[p] == e
      && (forall k :: 0 <= k < p ==> r[k] == entries[k])
      && (forall k :: p < k < |r| ==> r[k] == entries[k - 1])
  {
  }

  /** Opening files keeps every listing in name order, so later listings come out sorted. */
  lemma {:induction false} OpenKeepsWellFormed(entries: seq<Entry>, path: Path)
    requires |path| >= 1 && WellFormed(entries) && Open(entries, path).Ok?
    ensures WellFormed(Open(entries, path).value)
    decreases path
  {
    var name := path[0];
    var i := IndexOf(entries, name);
    if |path| == 1 {
      if i == |entries| {
        InsertSorted(entries, File(name, ""));
        InsertKeepsChildren(entries, File(name, ""));
      }
    } else if i == |entries| {
      OpenKeepsWellFormed([], path[1..]);
      InsertSorted(entries, Dir(name, Open([], path[1..]).value));
      InsertKeepsChildren(entries, Dir(name, Open([], path[1..]).value));
    } else {
      OpenKeepsWellFormed(entries[i].entries, path[1..]);
      var out := Open(entries, path).value;
      assert forall k :: 0 <= k < |out| ==> out[k].name == entries[k].name;
    }
  }

  lemma {:induction false} OverwriteKeepsWellFormed(entries: seq<Entry>, path: Path, data: string)
    requires |path| >= 1 && WellFormed(entries)
    ensures WellFormed(Overwrite(entries, path, data))
    decreases path
  {
    var i := IndexOf(entries, path[0]);
    if i < |entries| && entries[i].Dir? && |path| > 1 {
      OverwriteKeepsWellFormed(entries[i].entries, path[1..], data);
    }
    var out := Overwrite(entries, path, data);
    assert forall k :: 0 <= k < |out| ==> out[k].name == entries[k].name;
  }

  lemma InsertKeepsChildren(entries: seq<Entry>, e: Entry)
    requires forall k :: 0 <= k < |entries| && entries[k].Dir? ==> WellFormed(entries[k].entries)
    requires e.Dir? ==> WellFormed(e.entries)
    requires Sorted(Insert(entries, e))
    ensures WellFormed(Insert(entries, e))
  {
    InsertShape(entries, e);
  }
}
