/**
  The watcher of watch.go: it rebuilds the cache and reloads the tree on
  start-up, then again on the first tick after a change event. Events come
  only for entries directly in the source directory, which is not watched
  recursively. The two goroutines are modelled as methods that the event
  loop and the ticker loop would call, one at a time; the source
  directory's contents at the moment of an update are a parameter.
 */
module Watch {
  import opened Wrappers
  import opened Fs
  import Html
  import Transform
  import opened ContentTree
  import Server

  /** pendingUpdate: empty at first, then "P" after an event and "R" after a tick. */
  datatype Flag = Unset | Pending | Ready

  datatype Signal = Event | Tick

  /** One signal: an event marks an update pending; a tick marks it ready and starts it when it was pending. */
  function Next(f: Flag, s: Signal): (r: (Flag, bool))
    ensures s == Event ==> r == (Pending, false)
    ensures s == Tick ==> r.0 == Ready && (r.1 <==> f == Pending)
  {
    match s
    case Event => (Pending, false)
    case Tick => (Ready, f == Pending)
  }

  /** The flag after a run of signals. */
  function FlagAfter(f: Flag, trace: seq<Signal>): Flag
    decreases |trace|
  {
    if trace == [] then f else FlagAfter(Next(f, trace[0]).0, trace[1..])
  }

  /** How many updates a run of signals starts. */
  function Updates(f: Flag, trace: seq<Signal>): nat
    decreases |trace|
  {
    if trace == [] then 0
    else (if Next(f, trace[0]).1 then 1 else 0) + Updates(Next(f, trace[0]).0, trace[1..])
  }

  function Events(n: nat): (r: seq<Signal>)
    ensures |r| == n && forall k :: 0 <= k < n ==> r[k] == Event
  {
    if n == 0 then [] else [Event] + Events(n - 1)
  }

  function Count(trace: seq<Signal>, s: Signal): nat {
    if trace == [] then 0 else (if trace[0] == s then 1 else 0) + Count(trace[1..], s)
  }

  /** After events the flag is pending and no update has started, whatever it was before. */
  lemma {:induction false} EventsOnly(f: Flag, n: nat)
    ensures FlagAfter(f, Events(n)) == (if n == 0 then f else Pending)
    ensures Updates(f, Events(n)) == 0
    decreases n
  {
    if n > 0 {
      EventsOnly(Pending, n - 1);
      assert Events(n)[1..] == Events(n - 1);
    }
  }

  lemma {:induction false} AppendTick(f: Flag, trace: seq<Signal>)
    ensures FlagAfter(f, trace + [Tick]) == Ready
    ensures Updates(f, trace + [Tick]) == Updates(f, trace) + (if FlagAfter(f, trace) == Pending then 1 else 0)
    decreases |trace|
  {
    if trace == [] {
      assert trace + [Tick] == [Tick];
    } else {
      assert (trace + [Tick])[0] == trace[0] && (trace + [Tick])[1..] == trace[1..] + [Tick];
      AppendTick(Next(f, trace[0]).0, trace[1..]);
    }
  }

  /**
    Any number of events between two ticks gives exactly one update on the
    second tick; none gives no update, unless one was already pending. The
    flag is ready afterwards.
   */
  lemma EventsThenTick(f: Flag, n: nat)
    ensures Updates(f, Events(n) + [Tick]) == (if n > 0 || f == Pending then 1 else 0)
    ensures FlagAfter(f, Events(n) + [Tick]) == Ready
  {
    EventsOnly(f, n);
    AppendTick(f, Events(n));
  }

  /** Without events, no tick starts an update: neither before the first event nor after a completed (or failed) one. */
  lemma {:induction false} TicksWithoutEvents(f: Flag, trace: seq<Signal>)
    requires f != Pending
    requires forall k :: 0 <= k < |trace| ==> trace[k] == Tick
    ensures Updates(f, trace) == 0
    decreases |trace|
  {
    if trace != [] {
      TicksWithoutEvents(Ready, trace[1..]);
    }
  }

  /** Updates never outnumber the events that asked for them (plus one already pending), nor the ticks. */
  lemma {:induction false} UpdatesBounded(f: Flag, trace: seq<Signal>)
    ensures Updates(f, trace) <= Count(trace, Event) + (if f == Pending then 1 else 0)
    ensures Updates(f, trace) <= Count(trace, Tick)
    decreases |trace|
  {
    if trace != [] {
      UpdatesBounded(Next(f, trace[0]).0, trace[1..]);
    }
  }

  datatype UpdateError = TransformFailed(transform: Transform.TransformError) | LoadFailed(load: LoadError)

  class Watcher {
    const codec: Html.Codec
    const destDir: Path
    /** The contents of destDir. */
    var cache: seq<Entry>
    var tree: Option<Tree>
    var pending: Flag

    /** Once constructed, a watcher always has a servable tree. */
    ghost predicate Valid()
      reads this
    {
      tree.Some? && Server.Servable(tree.value)
    }

    constructor (codec: Html.Codec, destDir: Path)
      ensures this.codec == codec && this.destDir == destDir
      ensures cache == [] && tree == None && pending == Unset
    {
      this.codec := codec;
      this.destDir := destDir;
      cache := [];
      tree := None;
      pending := Unset;
    }

    /**
      Update: rebuild the cache from `source`, then load the tree from it.
      The cache is always rebuilt; the tree is replaced only when both steps
      succeed, and kept otherwise.
     */
    method Update(source: seq<Entry>) returns (err: Option<UpdateError>)
      modifies this
      ensures pending == old(pending)
      ensures cache == Transform.TransformEntries(codec, source, [], []).disk
      ensures err.None? <==> Transform.TransformEntries(codec, source, [], []).err.None? && LoadedTree(codec, cache).Ok?
      ensures err.None? ==> tree == Some(LoadedTree(codec, cache).value) && Valid()
      ensures err.Some? ==> tree == old(tree)
      ensures old(Valid()) ==> Valid()
    {
      var w := Transform.TransformTree(codec, source);
      cache := w.disk;
      if w.err.Some? {
        return Some(TransformFailed(w.err.value));
      }
      var t := LoadTree(codec, cache);
      if t.Err? {
        return Some(LoadFailed(t.error));
      }
      Server.LoadedTreeServable(codec, cache);
      tree := Some(t.value);
      return None;
    }

    /** The event loop's body: mark an update pending, whatever the flag held. */
    method OnEvent()
      modifies this
      ensures pending == Next(old(pending), Event).0
      ensures cache == old(cache) && tree == old(tree)
    {
      pending := Pending;
    }

    /**
      The ticker loop's body: swap the flag to ready and update when it was
      pending. The update's error is dropped, so a failed update is not
      retried until another event arrives.
     */
    method OnTick(source: seq<Entry>) returns (updated: bool)
      modifies this
      ensures (pending, updated) == Next(old(pending), Tick)
      ensures !updated ==> cache == old(cache) && tree == old(tree)
      ensures updated ==> cache == Transform.TransformEntries(codec, source, [], []).disk
      ensures updated && Transform.TransformEntries(codec, source, [], []).err.None? && LoadedTree(codec, cache).Ok? ==>
        tree == Some(LoadedTree(codec, cache).value)
      ensures updated && !(Transform.TransformEntries(codec, source, [], []).err.None? && LoadedTree(codec, cache).Ok?) ==>
        tree == old(tree)
      ensures old(Valid()) ==> Valid()
    {
      var val := pending;
      pending := Ready;
      updated := val == Pending;
      if updated {
        var _ := Update(source);
      }
    }

    /** GetTree: the current tree, never an error. */
    method GetTree() returns (r: Result<Tree, string>)
      requires Valid()
      ensures r == Ok(tree.value) && Server.Servable(r.value)
    {
      return Ok(tree.value);
    }

    method RootDir() returns (d: Path)
      ensures d == destDir
    {
      return destDir;
    }

    /** A request as the HTTP handler serves it with this watcher as its tree provider. */
    method Serve(req: Path) returns (resp: Server.Response)
      requires Valid()
      ensures resp == Server.Dispatch(Server.RouteHandlers, Ok(tree.value), destDir, cache, req)
    {
      var t := GetTree();
      var root := RootDir();
      resp := Server.HandleRequest(t, root, cache, req);
    }
  }

  /** NewWatcher: a watcher with an empty flag and a first update, which must succeed. */
  method NewWatcher(codec: Html.Codec, destDir: Path, source: seq<Entry>) returns (r: Result<Watcher, UpdateError>)
    ensures r.Ok? <==>
      Transform.TransformEntries(codec, source, [], []).err.None? && LoadedTree(codec, Transform.TransformEntries(codec, source, [], []).disk).Ok?
    ensures r.Ok? ==>
      && fresh(r.value) && r.value.Valid() && r.value.pending == Unset && r.value.destDir == destDir
      && r.value.tree == Some(LoadedTree(codec, Transform.TransformEntries(codec, source, [], []).disk).value)
  {
    var w := new Watcher(codec, destDir);
    var err := w.Update(source);
    if err.Some? {
      return Err(err.value);
    }
    return Ok(w);
  }
}
