/**
 * The sync hook (frontend/src/hooks/useSync.ts): the comparison of a
 * source-language file with a translation (which unit ids were added,
 * removed or had their source text changed), and the small state machine
 * that queues sync operations and drains them.
 */
module UseSync {
  import opened Common
  import opened Types

  // ---------------------------------------------------------------------
  // detectChanges and needsSync
  // ---------------------------------------------------------------------

  /** The ids of the units whose id is not in `others`, in order. */
  function IdsAbsentFrom(units: seq<TranslationUnit>, others: seq<string>): seq<string> {
    if units == [] then []
    else
      var rest := IdsAbsentFrom(units[1..], others);
      if units[0].id !in others then [units[0].id] + rest else rest
  }

  /** The ids of the source units whose first namesake in the target has a
      different source text. */
  function ModifiedIds(source: seq<TranslationUnit>, target: seq<TranslationUnit>): seq<string> {
    if source == [] then []
    else
      var rest := ModifiedIds(source[1..], target);
      var t := FindById(target, source[0].id);
      if t.Some? && t.value.source != source[0].source then [source[0].id] + rest else rest
  }

  datatype Changes = Changes(added: seq<string>, removed: seq<string>, modified: seq<string>)

  function DetectChanges(source: seq<TranslationUnit>, target: seq<TranslationUnit>): Changes {
    Changes(
      IdsAbsentFrom(source, Ids(target)),
      IdsAbsentFrom(target, Ids(source)),
      ModifiedIds(source, target))
  }

  predicate NeedsSync(source: seq<TranslationUnit>, target: seq<TranslationUnit>) {
    var c := DetectChanges(source, target);
    |c.added| > 0 || |c.removed| > 0 || |c.modified| > 0
  }

  /** An id is listed exactly when some unit carries it and it is not among
      the others; the list follows the units' order. */
  lemma {:induction false} IdsAbsentFromMembers(units: seq<TranslationUnit>, others: seq<string>, x: string)
    ensures x in IdsAbsentFrom(units, others) <==> x in Ids(units) && x !in others
    ensures Subsequence(IdsAbsentFrom(units, others), Ids(units))
  {
    if units != [] {
      IdsAbsentFromMembers(units[1..], others, x);
      var ids := Ids(units);
      assert ids == [units[0].id] + Ids(units[1..]);
      assert ids[1..] == Ids(units[1..]);
      if units[0].id !in others {
        assert ([units[0].id] + IdsAbsentFrom(units[1..], others))[1..] == IdsAbsentFrom(units[1..], others);
      }
    }
  }

  /** An id is modified exactly when a source unit with it has a target
      namesake whose source text differs; modified ids are all in the
      target, and in source order. */
  lemma {:induction false} ModifiedIdsMembers(source: seq<TranslationUnit>, target: seq<TranslationUnit>, x: string)
    ensures x in ModifiedIds(source, target) <==>
      exists u :: u in source && u.id == x && FindById(target, x).Some? && FindById(target, x).value.source != u.source
    ensures x in ModifiedIds(source, target) ==> x in Ids(target)
    ensures Subsequence(ModifiedIds(source, target), Ids(source))
  {
    if source != [] {
      ModifiedIdsMembers(source[1..], target, x);
      var ids := Ids(source);
      assert ids == [source[0].id] + Ids(source[1..]);
      assert ids[1..] == Ids(source[1..]);
      var rest := ModifiedIds(source[1..], target);
      if ModifiedIds(source, target) != rest {
        assert ([source[0].id] + rest)[1..] == rest;
      }
      assert forall u :: u in source <==> u == source[0] || u in source[1..];
    }
  }

  /** No id is both added and modified. */
  lemma AddedNotModified(source: seq<TranslationUnit>, target: seq<TranslationUnit>, x: string)
    ensures !(x in DetectChanges(source, target).added && x in DetectChanges(source, target).modified)
  {
    IdsAbsentFromMembers(source, Ids(target), x);
    ModifiedIdsMembers(source, target, x);
  }

  /** needsSync is false exactly when both files have the same ids and every
      source unit's first namesake in the target has the same source text. */
  lemma NeedsSyncIff(source: seq<TranslationUnit>, target: seq<TranslationUnit>)
    ensures !NeedsSync(source, target) <==>
      && (forall x :: x in Ids(source) <==> x in Ids(target))
      && (forall u :: u in source ==> FindById(target, u.id).value.source == u.source)
  {
    var c := DetectChanges(source, target);
    var ids, tids := Ids(source), Ids(target);
    if !NeedsSync(source, target) {
      forall x ensures x in ids <==> x in tids {
        IdsAbsentFromMembers(source, tids, x);
        IdsAbsentFromMembers(target, ids, x);
      }
      forall u | u in source ensures FindById(target, u.id).value.source == u.source {
        var i :| 0 <= i < |source| && source[i] == u;
        assert ids[i] == u.id;
        ModifiedIdsMembers(source, target, u.id);
      }
    } else if |c.added| > 0 {
      IdsAbsentFromMembers(source, tids, c.added[0]);
    } else if |c.removed| > 0 {
      IdsAbsentFromMembers(target, ids, c.removed[0]);
    } else {
      ModifiedIdsMembers(source, target, c.modified[0]);
    }
  }

  /** A target missing one id, with an extra one and a
      changed source text. */
  lemma DetectChangesExample()
    ensures DetectChanges(
      [TranslationUnit("a", "A", ""), TranslationUnit("b", "B", ""), TranslationUnit("c", "C", "")],
      [TranslationUnit("a", "A", "x"), TranslationUnit("c", "C2", "z"), TranslationUnit("d", "D", "w")])
      == Changes(["b"], ["d"], ["c"])
  {
    var s := [TranslationUnit("a", "A", ""), TranslationUnit("b", "B", ""), TranslationUnit("c", "C", "")];
    var t := [TranslationUnit("a", "A", "x"), TranslationUnit("c", "C2", "z"), TranslationUnit("d", "D", "w")];
    assert Ids(t) == ["a", "c", "d"];
    assert Ids(s) == ["a", "b", "c"];
    assert IdsAbsentFrom(s, Ids(t)) == ["b"] by {
      assert IdsAbsentFrom(s[2..], Ids(t)) == [];
      assert IdsAbsentFrom(s[1..], Ids(t)) == ["b"];
    }
    assert IdsAbsentFrom(t, Ids(s)) == ["d"] by {
      assert IdsAbsentFrom(t[2..], Ids(s)) == ["d"];
      assert IdsAbsentFrom(t[1..], Ids(s)) == ["d"];
    }
    assert ModifiedIds(s, t) == ["c"] by {
      assert FindById(t, "a") == Some(t[0]);
      assert FindById(t, "b") == None;
      assert FindById(t, "c") == Some(t[1]);
      assert ModifiedIds(s[2..], t) == ["c"];
      assert ModifiedIds(s[1..], t) == ["c"];
    }
  }

  // ---------------------------------------------------------------------
  // The queue
  // ---------------------------------------------------------------------

  datatype SyncStatus = Idle | Pending | Syncing | Synced | SyncError

  datatype OperationType = Reorder | SourceChange | AddKey | DeleteKey

  datatype SyncOperation = SyncOperation(id: string, kind: OperationType, baseName: string, timestamp: int, filesAffected: seq<string>)

  /** How the onSyncComplete callback ended. */
  datatype CallbackOutcome = Returned | ThrewError(message: string) | ThrewOther

  class Sync {
    var status: SyncStatus
    var progress: int
    var filesAffected: seq<string>
    var error: Option<string>
    var lastSync: Option<int>
    /** operationQueueRef */
    var queue: seq<SyncOperation>
    /** The pendingOperations state, a copy of the queue. */
    var pendingOperations: seq<SyncOperation>
    var autoSyncEnabled: bool

    /** The pending list mirrors the queue, the affected files are distinct,
        and 'pending' means something is queued. */
    ghost predicate Valid()
      reads this
    {
      && pendingOperations == queue
      && Distinct(filesAffected)
      && (status == Pending ==> queue != [])
    }

    constructor(autoSync: bool)
      ensures Valid()
      ensures status == Idle && progress == 0 && filesAffected == [] && error == None && lastSync == None
      ensures queue == [] && autoSyncEnabled == autoSync
    {
      status := Idle;
      progress := 0;
      filesAffected := [];
      error := None;
      lastSync := None;
      queue := [];
      pendingOperations := [];
      autoSyncEnabled := autoSync;
    }

    predicate HasPendingChanges()
      reads this
    {
      |pendingOperations| > 0
    }

    /** queueOperation: the operation is appended, the state is 'pending',
        and its files join the affected ones without duplicates. */
    method QueueOperation(op: SyncOperation)
      requires Valid()
      modifies this
      ensures Valid()
      ensures queue == old(queue) + [op] && status == Pending
      ensures filesAffected == Dedup(old(filesAffected) + op.filesAffected)
      ensures HasPrefixSeq(filesAffected, old(filesAffected))
      ensures forall f :: f in filesAffected <==> f in old(filesAffected) || f in op.filesAffected
      ensures progress == old(progress) && error == old(error) && lastSync == old(lastSync)
      ensures autoSyncEnabled == old(autoSyncEnabled)
    {
      assert [] + filesAffected == filesAffected;
      DedupFromDistinctPrefix([], filesAffected, op.filesAffected);
      queue := queue + [op];
      pendingOperations := queue;
      status := Pending;
      filesAffected := Dedup(filesAffected + op.filesAffected);
    }

    /** performSync (and triggerSync): nothing with an empty queue;
        otherwise the queue is drained and handed to onSyncComplete, and the
        state ends 'synced' (progress 100, lastSync set), or 'error' when the
        callback throws. The intermediate 'syncing' state is overwritten
        within the same call. */
    method PerformSync(outcome: CallbackOutcome, now: int) returns (delivered: seq<SyncOperation>)
      requires Valid()
      modifies this
      ensures Valid()
      ensures old(queue) == [] ==>
        && delivered == [] && status == old(status) && progress == old(progress)
        && filesAffected == old(filesAffected) && error == old(error) && lastSync == old(lastSync)
      ensures old(queue) != [] ==>
        && delivered == old(queue) && filesAffected == []
        && (outcome.Returned? ==> status == Synced && progress == 100 && error == None && lastSync == Some(now))
        && (!outcome.Returned? ==> status == SyncError && progress == 0 && lastSync == None)
        && (outcome.ThrewError? ==> error == Some(outcome.message))
        && (outcome.ThrewOther? ==> error == Some("Sync failed"))
      ensures queue == [] && autoSyncEnabled == old(autoSyncEnabled)
    {
      if |queue| == 0 {
        return [];
      }
      delivered := Drain();
      if outcome.Returned? {
        status := Synced;
        progress := 100;
        filesAffected := [];
        lastSync := Some(now);
      } else {
        status := SyncError;
        progress := 0;
        filesAffected := [];
        error := Some(if outcome.ThrewError? then outcome.message else "Sync failed");
      }
    }

    /** The first half of performSync: the queue is handed over and emptied,
        and the state is 'syncing' over the distinct files of the drained
        operations. */
    method Drain() returns (delivered: seq<SyncOperation>)
      requires Valid()
      modifies this
      ensures Valid()
      ensures delivered == old(queue) && queue == [] && pendingOperations == []
      ensures status == Syncing && progress == 0 && error == None && lastSync == None
      ensures filesAffected == Dedup(FlatFiles(delivered))
      ensures autoSyncEnabled == old(autoSyncEnabled)
    {
      delivered := queue;
      queue := [];
      pendingOperations := [];
      status := Syncing;
      progress := 0;
      filesAffected := Dedup(FlatFiles(delivered));
      error := None;
      lastSync := None;
    }

    /** The timer two seconds after a successful sync. */
    method SettleAfterSync()
      requires Valid()
      modifies this
      ensures Valid()
      ensures status == Idle && progress == 0
      ensures filesAffected == old(filesAffected) && error == old(error) && lastSync == old(lastSync)
      ensures queue == old(queue) && autoSyncEnabled == old(autoSyncEnabled)
    {
      status := Idle;
      progress := 0;
    }

    method ClearSync()
      requires Valid()
      modifies this
      ensures Valid()
      ensures queue == [] && !HasPendingChanges()
      ensures status == Idle && progress == 0 && filesAffected == [] && error == None && lastSync == None
      ensures autoSyncEnabled == old(autoSyncEnabled)
    {
      queue := [];
      pendingOperations := [];
      status := Idle;
      progress := 0;
      filesAffected := [];
      error := None;
      lastSync := None;
    }

    method ToggleAutoSync()
      requires Valid()
      modifies this
      ensures Valid()
      ensures autoSyncEnabled == !old(autoSyncEnabled)
      ensures status == old(status) && progress == old(progress) && filesAffected == old(filesAffected)
      ensures queue == old(queue) && error == old(error) && lastSync == old(lastSync)
    {
      autoSyncEnabled := !autoSyncEnabled;
    }

    method UpdateProgress(p: int)
      requires Valid()
      modifies this
      ensures Valid()
      ensures progress == p
      ensures status == old(status) && filesAffected == old(filesAffected) && autoSyncEnabled == old(autoSyncEnabled)
      ensures queue == old(queue) && error == old(error) && lastSync == old(lastSync)
    {
      progress := p;
    }
  }

  /** `operations.flatMap(op => op.filesAffected)` */
  function FlatFiles(ops: seq<SyncOperation>): seq<string> {
    if ops == [] then [] else ops[0].filesAffected + FlatFiles(ops[1..])
  }
}
