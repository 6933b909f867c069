// The Go backend's workspace watcher (services/watcher.go), made
// sequential: the goroutine's select loop consumes a sequence of inputs
// (a stop signal, a raw fsnotify event, a closed channel, an error item),
// `os.Stat` becomes an "is a directory" oracle, and the channels and the
// fsnotify handle become flags on the watcher object.

module GoWatcher {
  import opened Common
  import opened Types
  import GoWorkspace

  // fsnotify's Op bits.
  const CreateOp: bv32 := 1
  const WriteOp: bv32 := 2
  const RemoveOp: bv32 := 4
  const RenameOp: bv32 := 8
  const ChmodOp: bv32 := 16

  datatype RawEvent = RawEvent(name: string, op: bv32)

  /** `event.Has(flag)`: every bit of `flag` is set in the op. */
  predicate Has(e: RawEvent, flag: bv32) {
    e.op & flag == flag
  }

  /** isXliffFile: a test on the whole path, so a directory named "x.xlf" passes. */
  predicate IsXliffFile(path: string) {
    HasSuffix(path, ".xlf") || HasSuffix(path, ".xliff")
  }

  /** The kind each of the four op bits stands for. */
  function KindOfBit(bit: bv32): WatchEventType
    requires bit == CreateOp || bit == WriteOp || bit == RemoveOp || bit == RenameOp
  {
    if bit == CreateOp then CreateEvent
    else if bit == WriteOp then ModifyEvent
    else if bit == RemoveOp then DeleteEvent
    else RenameEvent
  }

  /** convertEvent: the first of Create, Write, Remove, Rename that the op has, or nothing. */
  function ConvertEvent(e: RawEvent): (r: Option<FileWatchEvent>)
    ensures r.None? <==> e.op & 15 == 0
    ensures r.Some? ==> r.value.path == e.name
    ensures r.Some? ==> r.value.oldPath == (if r.value.kind == RenameEvent then e.name else "")
  {
    if Has(e, CreateOp) then Some(FileWatchEvent(CreateEvent, e.name, ""))
    else if Has(e, WriteOp) then Some(FileWatchEvent(ModifyEvent, e.name, ""))
    else if Has(e, RemoveOp) then Some(FileWatchEvent(DeleteEvent, e.name, ""))
    else if Has(e, RenameOp) then Some(FileWatchEvent(RenameEvent, e.name, e.name))
    else None
  }

  /** The priority order is the order of the bits: the kind is that of the lowest of the four bits set. */
  lemma ConvertEventLowestBit(e: RawEvent)
    requires e.op & 15 != 0
    ensures var low := (e.op & 15) & -(e.op & 15);
      && (low == CreateOp || low == WriteOp || low == RemoveOp || low == RenameOp)
      && ConvertEvent(e).value.kind == KindOfBit(low)
  {
    var m := e.op & 15;
    var low := m & -m;
    if e.op & 1 == 1 {
      assert low == 1;
    } else if e.op & 2 == 2 {
      assert low == 2;
    } else if e.op & 4 == 4 {
      assert low == 4;
    } else {
      assert low == 8;
    }
  }

  /** A chmod alone, or any op without the four bits, produces nothing. */
  lemma ConvertEventChmodOnly(name: string)
    ensures ConvertEvent(RawEvent(name, ChmodOp)).None?
    ensures ConvertEvent(RawEvent(name, CreateOp | WriteOp)) == Some(FileWatchEvent(CreateEvent, name, ""))
  {
  }

  // ---------------------------------------------------------------------
  // Start's walk
  // ---------------------------------------------------------------------

  /** The directories Start hands to `watcher.Add`, in order, and the error that ended the walk, if any. */
  datatype WatchWalk = WatchWalk(dirs: seq<string>, error: Option<string>)

  /**
   * A directory is added before it is read; a hidden directory other than
   * the root is skipped; an unreadable one ends the walk after being added.
   */
  function WatchDirectory(path: string, d: GoWorkspace.Node, isRoot: bool): WatchWalk
    requires d.Dir?
    decreases d, 1
  {
    if GoWorkspace.IsHidden(d.name) && !isRoot then WatchWalk([], None)
    else if !d.readable then WatchWalk([path], Some("open " + path + ": permission denied"))
    else
      var r := WatchEntries(path, d.children);
      WatchWalk([path] + r.dirs, r.error)
  }

  function WatchEntries(dir: string, entries: seq<GoWorkspace.Node>): WatchWalk
    decreases entries, 0
  {
    if entries == [] then WatchWalk([], None)
    else
      var e := entries[0];
      if e.File? then WatchEntries(dir, entries[1..])
      else
        var first := WatchDirectory(GoWorkspace.PathJoin(dir, e.name), e, false);
        if first.error.Some? then first
        else
          var rest := WatchEntries(dir, entries[1..]);
          WatchWalk(first.dirs + rest.dirs, rest.error)
  }

  function WatchRoot(rootPath: string, root: Option<GoWorkspace.Node>): WatchWalk {
    match root
    case None => WatchWalk([], Some("lstat " + rootPath + ": no such file or directory"))
    case Some(n) => if n.File? then WatchWalk([], None) else WatchDirectory(rootPath, n, true)
  }

  /** Reference count: the directories reachable without entering a hidden one. */
  function VisibleDirs(n: GoWorkspace.Node): nat
    decreases n, 1
  {
    if n.File? || GoWorkspace.IsHidden(n.name) then 0 else 1 + VisibleDirsAll(n.children)
  }

  function VisibleDirsAll(cs: seq<GoWorkspace.Node>): nat
    decreases cs, 0
  {
    if cs == [] then 0 else VisibleDirs(cs[0]) + VisibleDirsAll(cs[1..])
  }

  /**
   * Below the root the watcher's walk fails exactly where the scanner's
   * does, and without an error it adds every visible directory once.
   */
  lemma {:induction false} WatchDirectoryAgreesWithScan(path: string, d: GoWorkspace.Node)
    requires d.Dir?
    ensures WatchDirectory(path, d, false).error.Some? <==> GoWorkspace.Blocked(d)
    ensures WatchDirectory(path, d, false).error.None? ==> |WatchDirectory(path, d, false).dirs| == VisibleDirs(d)
    decreases d, 1
  {
    if !GoWorkspace.IsHidden(d.name) && d.readable {
      WatchEntriesAgreeWithScan(path, d.children);
    }
  }

  lemma {:induction false} WatchEntriesAgreeWithScan(dir: string, entries: seq<GoWorkspace.Node>)
    ensures WatchEntries(dir, entries).error.Some? <==> GoWorkspace.BlockedAny(entries)
    ensures WatchEntries(dir, entries).error.None? ==> |WatchEntries(dir, entries).dirs| == VisibleDirsAll(entries)
    decreases entries, 0
  {
    if entries != [] {
      var e := entries[0];
      if e.Dir? {
        WatchDirectoryAgreesWithScan(GoWorkspace.PathJoin(dir, e.name), e);
      }
      WatchEntriesAgreeWithScan(dir, entries[1..]);
    }
  }

  /** The root is always added, even when its own name is hidden (where the scanner skips it). */
  lemma WatchRootAlwaysAdded(rootPath: string, d: GoWorkspace.Node)
    requires d.Dir?
    ensures WatchRoot(rootPath, Some(d)).dirs != [] && WatchRoot(rootPath, Some(d)).dirs[0] == rootPath
    ensures WatchRoot(rootPath, Some(d)).error.Some? <==> !d.readable || GoWorkspace.BlockedAny(d.children)
  {
    if d.readable {
      WatchEntriesAgreeWithScan(rootPath, d.children);
    }
  }

  // ---------------------------------------------------------------------
  // The event loop
  // ---------------------------------------------------------------------

  /** What the select statement receives next. */
  datatype LoopInput = StopSignal | Event(event: RawEvent) | EventsClosed | ErrorItem | ErrorsClosed

  predicate Ends(x: LoopInput) {
    x.StopSignal? || x.EventsClosed? || x.ErrorsClosed?
  }

  /** What the loop does with its inputs: events passed to the callback, paths added, and whether it returned. */
  datatype Dispatched = Dispatched(events: seq<FileWatchEvent>, added: seq<string>, ended: bool)

  function Dispatch(inputs: seq<LoopInput>, isDir: string -> bool): Dispatched {
    if inputs == [] then Dispatched([], [], false)
    else if Ends(inputs[0]) then Dispatched([], [], true)
    else
      var rest := Dispatch(inputs[1..], isDir);
      match inputs[0]
      case ErrorItem => rest
      case Event(e) =>
        if !IsXliffFile(e.name) then
          if Has(e, CreateOp) && isDir(e.name) then rest.(added := [e.name] + rest.added) else rest
        else if ConvertEvent(e).Some? then rest.(events := [ConvertEvent(e).value] + rest.events)
        else rest
  }

  /** Only XLIFF paths reach the callback. */
  lemma {:induction false} DispatchEventsAreXliff(inputs: seq<LoopInput>, isDir: string -> bool)
    ensures forall e :: e in Dispatch(inputs, isDir).events ==> IsXliffFile(e.path)
  {
    if inputs != [] && !Ends(inputs[0]) {
      DispatchEventsAreXliff(inputs[1..], isDir);
    }
  }

  /** Only created non-XLIFF paths that stat as directories grow the watch set; hidden names are not excluded. */
  lemma {:induction false} DispatchAddsCreatedDirs(inputs: seq<LoopInput>, isDir: string -> bool)
    ensures forall p :: p in Dispatch(inputs, isDir).added ==>
      !IsXliffFile(p) && isDir(p) && exists i :: 0 <= i < |inputs| && inputs[i].Event? && inputs[i].event.name == p && Has(inputs[i].event, CreateOp)
  {
    if inputs != [] && !Ends(inputs[0]) {
      DispatchAddsCreatedDirs(inputs[1..], isDir);
      forall p | p in Dispatch(inputs[1..], isDir).added
        ensures exists i :: 0 <= i < |inputs| && inputs[i].Event? && inputs[i].event.name == p && Has(inputs[i].event, CreateOp)
      {
        var i :| 0 <= i < |inputs[1..]| && inputs[1..][i].Event? && inputs[1..][i].event.name == p && Has(inputs[1..][i].event, CreateOp);
        assert inputs[i + 1] == inputs[1..][i];
      }
    }
  }

  /** Each XLIFF event causes at most one callback. */
  function XliffEventCount(inputs: seq<LoopInput>): nat {
    if inputs == [] then 0
    else XliffEventCount(inputs[1..]) + (if inputs[0].Event? && IsXliffFile(inputs[0].event.name) then 1 else 0)
  }

  lemma {:induction false} DispatchAtMostOnePerEvent(inputs: seq<LoopInput>, isDir: string -> bool)
    ensures |Dispatch(inputs, isDir).events| <= XliffEventCount(inputs)
  {
    if inputs != [] && !Ends(inputs[0]) {
      DispatchAtMostOnePerEvent(inputs[1..], isDir);
    }
  }

  /** Nothing after the first stop signal or closed channel matters. */
  lemma {:induction false} DispatchStopsAtEnd(a: seq<LoopInput>, t: LoopInput, b: seq<LoopInput>, c: seq<LoopInput>, isDir: string -> bool)
    requires Ends(t)
    ensures Dispatch(a + [t] + b, isDir) == Dispatch(a + [t] + c, isDir)
    ensures Dispatch(a + [t] + b, isDir).ended
  {
    if a == [] {
      assert (a + [t] + b)[0] == t && (a + [t] + c)[0] == t;
    } else {
      assert (a + [t] + b)[1..] == a[1..] + [t] + b;
      assert (a + [t] + c)[1..] == a[1..] + [t] + c;
      DispatchStopsAtEnd(a[1..], t, b, c, isDir);
    }
  }

  /** Items on the error channel are dropped. */
  lemma {:induction false} DispatchDropsErrors(a: seq<LoopInput>, b: seq<LoopInput>, isDir: string -> bool)
    requires forall i :: 0 <= i < |a| ==> !Ends(a[i])
    ensures Dispatch(a + [ErrorItem] + b, isDir) == Dispatch(a + b, isDir)
  {
    if a == [] {
      assert (a + [ErrorItem] + b)[1..] == b;
      assert a + b == b;
    } else {
      assert (a + [ErrorItem] + b)[1..] == a[1..] + [ErrorItem] + b;
      assert (a + b)[1..] == a[1..] + b;
      DispatchDropsErrors(a[1..], b, isDir);
    }
  }

  /** How Stop can end. */
  datatype StopOutcome = NotRunning | Stopped | ClosePanics | BlocksForever

  /** How the event loop's goroutine ends, if it does. */
  datatype LoopEnd = StillWaiting | Returned | CloseStoppedPanics

  class WorkspaceWatcher {
    const rootPath: string
    var running: bool
    /** The watch set grown by `watcher.Add`. */
    var watchSet: set<string>
    var stopChClosed: bool
    var stoppedChClosed: bool
    /** The event-loop goroutine has been started and has not returned. */
    var loopRunning: bool
    /** `watcher.Close()` has been called. */
    var fsClosed: bool

    /** NewWorkspaceWatcher: both channels are made here, once. */
    constructor (rootPath: string)
      ensures this.rootPath == rootPath
      ensures !running && watchSet == {} && !stopChClosed && !stoppedChClosed && !loopRunning && !fsClosed
    {
      this.rootPath := rootPath;
      running := false;
      watchSet := {};
      stopChClosed := false;
      stoppedChClosed := false;
      loopRunning := false;
      fsClosed := false;
    }

    /** A running loop implies the running flag. */
    ghost predicate Valid()
      reads this
    {
      loopRunning ==> running
    }

    method Start(root: Option<GoWorkspace.Node>) returns (err: Option<string>)
      requires Valid()
      modifies this
      ensures Valid()
      ensures old(running) ==> err.None? && unchanged(this)
      ensures !old(running) ==> running
      ensures !old(running) && old(fsClosed) && WatchRoot(rootPath, root).dirs != [] ==>
        err.Some? && !loopRunning && watchSet == old(watchSet)
      ensures !old(running) && (!old(fsClosed) || WatchRoot(rootPath, root).dirs == []) ==>
        && watchSet == old(watchSet) + (set p | p in WatchRoot(rootPath, root).dirs)
        && err == WatchRoot(rootPath, root).error
        && loopRunning == err.None?
      ensures stopChClosed == old(stopChClosed) && stoppedChClosed == old(stoppedChClosed) && fsClosed == old(fsClosed)
    {
      if running {
        return None;
      }
      running := true;
      var walk := WatchRoot(rootPath, root);
      if fsClosed && walk.dirs != [] {
        return Some("fsnotify: watcher already closed");
      }
      var i := 0;
      while i < |walk.dirs|
        invariant 0 <= i <= |walk.dirs|
        invariant watchSet == old(watchSet) + (set p | p in walk.dirs[..i])
        invariant running && loopRunning == old(loopRunning)
        invariant stopChClosed == old(stopChClosed) && stoppedChClosed == old(stoppedChClosed) && fsClosed == old(fsClosed)
      {
        watchSet := watchSet + {walk.dirs[i]};
        assert walk.dirs[..i + 1] == walk.dirs[..i] + [walk.dirs[i]];
        i := i + 1;
      }
      assert walk.dirs[..i] == walk.dirs;
      if walk.error.Some? {
        return walk.error;
      }
      loopRunning := true;
      return None;
    }

    method Stop() returns (outcome: StopOutcome)
      requires Valid()
      modifies this
      ensures Valid()
      ensures !old(running) ==> outcome == NotRunning && unchanged(this)
      ensures old(running) ==> !running && !loopRunning
      ensures old(running) && old(stopChClosed) ==> outcome == ClosePanics
      ensures old(running) && !old(stopChClosed) && old(loopRunning) ==> outcome == Stopped && fsClosed && stoppedChClosed
      ensures old(running) && !old(stopChClosed) && !old(loopRunning) ==>
        outcome == (if old(stoppedChClosed) then Stopped else BlocksForever)
      ensures outcome == Stopped ==> fsClosed
      ensures outcome == BlocksForever ==> fsClosed == old(fsClosed) && stoppedChClosed == old(stoppedChClosed)
      ensures watchSet == old(watchSet)
    {
      if !running {
        return NotRunning;
      }
      running := false;
      if stopChClosed {
        loopRunning := false;
        return ClosePanics;
      }
      stopChClosed := true;
      if loopRunning {
        // The loop takes the stop signal, returns and closes stoppedCh.
        loopRunning := false;
        stoppedChClosed := true;
      } else if !stoppedChClosed {
        return BlocksForever;
      }
      fsClosed := true;
      return Stopped;
    }

    /** One event of eventLoop: a created directory outside the XLIFF files
        joins the watch set, an XLIFF event is converted for the callback. */
    method HandleEvent(e: RawEvent, isDir: string -> bool) returns (w: Option<FileWatchEvent>)
      requires Valid()
      modifies this
      ensures Valid()
      ensures w == if IsXliffFile(e.name) then ConvertEvent(e) else None
      ensures watchSet == old(watchSet) + (if !IsXliffFile(e.name) && Has(e, CreateOp) && isDir(e.name) then {e.name} else {})
      ensures running == old(running) && loopRunning == old(loopRunning) && stopChClosed == old(stopChClosed)
      ensures stoppedChClosed == old(stoppedChClosed) && fsClosed == old(fsClosed)
    {
      if !IsXliffFile(e.name) {
        if Has(e, CreateOp) && isDir(e.name) {
          watchSet := watchSet + {e.name};
        }
        return None;
      }
      w := ConvertEvent(e);
    }

    /** eventLoop, fed with what the select statement receives, in order. */
    method EventLoop(inputs: seq<LoopInput>, isDir: string -> bool) returns (emitted: seq<FileWatchEvent>, end: LoopEnd)
      requires Valid() && loopRunning
      modifies this
      ensures Valid()
      ensures emitted == Dispatch(inputs, isDir).events
      ensures watchSet == old(watchSet) + (set p | p in Dispatch(inputs, isDir).added)
      ensures end == (if !Dispatch(inputs, isDir).ended then StillWaiting
                      else if old(stoppedChClosed) then CloseStoppedPanics else Returned)
      ensures loopRunning == !Dispatch(inputs, isDir).ended
      ensures stoppedChClosed == (old(stoppedChClosed) || Dispatch(inputs, isDir).ended)
      ensures running == old(running) && stopChClosed == old(stopChClosed) && fsClosed == old(fsClosed)
    {
      emitted := [];
      ghost var added: seq<string> := [];
      var i := 0;
      while i < |inputs|
        invariant 0 <= i <= |inputs|
        invariant Valid() && loopRunning
        invariant forall j :: 0 <= j < i ==> !Ends(inputs[j])
        invariant emitted + Dispatch(inputs[i..], isDir).events == Dispatch(inputs, isDir).events
        invariant added + Dispatch(inputs[i..], isDir).added == Dispatch(inputs, isDir).added
        invariant Dispatch(inputs[i..], isDir).ended == Dispatch(inputs, isDir).ended
        invariant watchSet == old(watchSet) + (set p | p in added)
        invariant running == old(running) && stopChClosed == old(stopChClosed) && fsClosed == old(fsClosed)
        invariant stoppedChClosed == old(stoppedChClosed)
      {
        var x := inputs[i];
        assert inputs[i..][1..] == inputs[i + 1..];
        if Ends(x) {
          loopRunning := false;
          if stoppedChClosed {
            return emitted, CloseStoppedPanics;
          }
          stoppedChClosed := true;
          return emitted, Returned;
        }
        if x.Event? {
          var e := x.event;
          var w := HandleEvent(e, isDir);
          if w.Some? {
            emitted := emitted + [w.value];
          }
          if !IsXliffFile(e.name) && Has(e, CreateOp) && isDir(e.name) {
            added := added + [e.name];
          }
        }
        i := i + 1;
      }
      assert inputs[i..] == [];
      return emitted, StillWaiting;
    }
  }
}
