/**
 * The persisted store (frontend/src/stores/persistence.ts): a most recently
 * used list of workspaces, newest first and at most ten long, and the last
 * session's workspace, group and language.
 */
module PersistenceStore {
  import opened Common

  const MaxRecentWorkspaces: nat := 10

  datatype RecentWorkspace = RecentWorkspace(path: string, name: string, lastOpened: int, groupCount: int)

  function Paths(ws: seq<RecentWorkspace>): (r: seq<string>)
    ensures |r| == |ws|
    ensures forall i :: 0 <= i < |ws| ==> r[i] == ws[i].path
  {
    seq(|ws|, i requires 0 <= i < |ws| => ws[i].path)
  }

  /** `findIndex(w => w.path === path)` */
  function PathIndex(ws: seq<RecentWorkspace>, path: string): (r: int)
    ensures -1 <= r < |ws|
    ensures r == -1 <==> path !in Paths(ws)
    ensures r >= 0 ==> ws[r].path == path && forall i :: 0 <= i < r ==> ws[i].path != path
  {
    if ws == [] then -1
    else if ws[0].path == path then 0
    else
      var r := PathIndex(ws[1..], path);
      assert Paths(ws) == [ws[0].path] + Paths(ws[1..]);
      if r == -1 then -1 else r + 1
  }

  /** The list after `splice(findIndex(...), 1)` when the path is there. */
  function Removed(ws: seq<RecentWorkspace>, path: string): seq<RecentWorkspace> {
    var i := PathIndex(ws, path);
    if i == -1 then ws else ws[..i] + ws[i + 1..]
  }

  /** `while (length > MAX) pop()`: the first n entries. */
  function KeepFirst(ws: seq<RecentWorkspace>, n: nat): (r: seq<RecentWorkspace>)
    ensures |r| == if |ws| > n then n else |ws|
    ensures r == ws[..|r|]
  {
    if |ws| > n then ws[..n] else ws
  }

  /** The list after addRecentWorkspace. */
  function Added(ws: seq<RecentWorkspace>, w: RecentWorkspace): seq<RecentWorkspace> {
    KeepFirst([w] + Removed(ws, w.path), MaxRecentWorkspaces)
  }

  /** The list's invariant: distinct paths, at most ten entries. */
  ghost predicate WellFormed(ws: seq<RecentWorkspace>) {
    Distinct(Paths(ws)) && |ws| <= MaxRecentWorkspaces
  }

  /** Removing an entry leaves the others in their order. */
  lemma RemovedSubsequence(ws: seq<RecentWorkspace>, path: string)
    ensures Subsequence(Removed(ws, path), ws)
    ensures path !in Paths(ws) ==> Removed(ws, path) == ws
  {
    var i := PathIndex(ws, path);
    if i == -1 {
      SubsequenceReflexive(ws);
    } else {
      SpliceSubsequence(ws, i);
    }
  }

  /** With distinct paths, the removed path is gone afterwards, the paths
      stay distinct, and every other entry stays. */
  lemma RemovedDistinct(ws: seq<RecentWorkspace>, path: string)
    requires Distinct(Paths(ws))
    ensures Distinct(Paths(Removed(ws, path)))
    ensures path !in Paths(Removed(ws, path))
    ensures forall w :: w in ws && w.path != path ==> w in Removed(ws, path)
  {
    var i := PathIndex(ws, path);
    if i != -1 {
      var r := ws[..i] + ws[i + 1..];
      var ps := Paths(ws);
      PathsSplice(ws, i);
      SpliceDistinct(ps, i);
      assert ps[i] == path;
      forall w | w in ws && w.path != path ensures w in r {
        SpliceKeeps(ws, i, w);
      }
    }
  }

  lemma PathsSplice(ws: seq<RecentWorkspace>, i: int)
    requires 0 <= i < |ws|
    ensures Paths(ws[..i] + ws[i + 1..]) == Paths(ws)[..i] + Paths(ws)[i + 1..]
  {
    var r := ws[..i] + ws[i + 1..];
    var ps := Paths(ws);
    forall k | 0 <= k < |r| ensures Paths(r)[k] == (ps[..i] + ps[i + 1..])[k] {
      var j := if k < i then k else k + 1;
      assert r[k] == ws[j] && (ps[..i] + ps[i + 1..])[k] == ps[j];
    }
  }

  /** After an add the new entry is first, its path appears once, the list
      is at most ten long, and the rest is the old list without the path,
      in its old order, cut from the end. */
  lemma AddedShape(ws: seq<RecentWorkspace>, w: RecentWorkspace)
    requires WellFormed(ws)
    ensures var r := Added(ws, w);
      && |r| > 0 && r[0] == w
      && WellFormed(r)
      && r[1..] == Removed(ws, w.path)[..|r| - 1]
      && (forall i :: 1 <= i < |r| ==> r[i].path != w.path)
  {
    RemovedDistinct(ws, w.path);
    var rest := Removed(ws, w.path);
    var full := [w] + rest;
    var r := Added(ws, w);
    assert r == full[..|r|];
    forall k | 0 <= k < |rest| ensures rest[k].path != w.path {
      assert Paths(rest)[k] == rest[k].path;
    }
    forall k, l | 0 <= k < l < |r| ensures Paths(r)[k] != Paths(r)[l] {
      assert r[k] == full[k] && r[l] == full[l];
      if k > 0 {
        assert Paths(rest)[k - 1] != Paths(rest)[l - 1];
      }
    }
  }

  /** An existing entry moves to the front rather than being duplicated, so
      the length grows only for a new path. */
  lemma AddedLength(ws: seq<RecentWorkspace>, w: RecentWorkspace)
    requires WellFormed(ws)
    ensures w.path in Paths(ws) ==> |Added(ws, w)| == |ws|
    ensures w.path !in Paths(ws) ==> |Added(ws, w)| == if |ws| == MaxRecentWorkspaces then |ws| else |ws| + 1
  {
  }

  class Persistence {
    var recentWorkspaces: seq<RecentWorkspace>
    var lastWorkspace: Option<string>
    var lastGroupId: Option<string>
    var lastLanguage: Option<string>

    ghost predicate Valid()
      reads this
    {
      WellFormed(recentWorkspaces)
    }

    constructor()
      ensures Valid()
      ensures recentWorkspaces == [] && lastWorkspace == None && lastGroupId == None && lastLanguage == None
    {
      recentWorkspaces := [];
      lastWorkspace := None;
      lastGroupId := None;
      lastLanguage := None;
    }

    /** The `findIndex` loop. */
    static method FindPath(ws: seq<RecentWorkspace>, path: string) returns (idx: int)
      ensures idx == PathIndex(ws, path)
    {
      idx := 0;
      while idx < |ws| && ws[idx].path != path
        invariant 0 <= idx <= |ws|
        invariant forall i :: 0 <= i < idx ==> ws[i].path != path
      {
        idx := idx + 1;
      }
      if idx == |ws| {
        idx := -1;
      }
    }

    /** addRecentWorkspace; the clock reading is a parameter. */
    method AddRecentWorkspace(path: string, name: string, groupCount: int, now: int)
      requires Valid()
      modifies this
      ensures Valid()
      ensures recentWorkspaces == Added(old(recentWorkspaces), RecentWorkspace(path, name, now, groupCount))
      ensures lastWorkspace == old(lastWorkspace) && lastGroupId == old(lastGroupId) && lastLanguage == old(lastLanguage)
    {
      AddedShape(recentWorkspaces, RecentWorkspace(path, name, now, groupCount));
      var list := recentWorkspaces;
      var existingIdx := FindPath(list, path);
      if existingIdx != -1 {
        list := list[..existingIdx] + list[existingIdx + 1..];
      }
      list := [RecentWorkspace(path, name, now, groupCount)] + list;
      var full := list;
      while |list| > MaxRecentWorkspaces
        invariant |list| <= |full| && list == full[..|list|]
        invariant |full| <= MaxRecentWorkspaces ==> list == full
        invariant |full| > MaxRecentWorkspaces ==> |list| >= MaxRecentWorkspaces
        decreases |list|
      {
        list := list[..|list| - 1];
      }
      recentWorkspaces := list;
    }

    /** removeRecentWorkspace: the entry goes, and the last session is
        forgotten only when it was this workspace. */
    method RemoveRecentWorkspace(path: string)
      requires Valid()
      modifies this
      ensures Valid()
      ensures recentWorkspaces == Removed(old(recentWorkspaces), path)
      ensures old(lastWorkspace) == Some(path) ==> lastWorkspace == None && lastGroupId == None && lastLanguage == None
      ensures old(lastWorkspace) != Some(path) ==>
        lastWorkspace == old(lastWorkspace) && lastGroupId == old(lastGroupId) && lastLanguage == old(lastLanguage)
    {
      RemovedDistinct(recentWorkspaces, path);
      var idx := FindPath(recentWorkspaces, path);
      if idx != -1 {
        recentWorkspaces := recentWorkspaces[..idx] + recentWorkspaces[idx + 1..];
      }
      if lastWorkspace == Some(path) {
        lastWorkspace := None;
        lastGroupId := None;
        lastLanguage := None;
      }
    }

    method ClearRecentWorkspaces()
      modifies this
      ensures Valid() && recentWorkspaces == []
      ensures lastWorkspace == old(lastWorkspace) && lastGroupId == old(lastGroupId) && lastLanguage == old(lastLanguage)
    {
      recentWorkspaces := [];
    }

    /** updateLastSession(workspace, groupId?, language?): an argument left
        undefined (outer None) keeps the field; null is the inner None. */
    method UpdateLastSession(workspace: Option<string>, groupId: Option<Option<string>>, language: Option<Option<string>>)
      modifies this
      ensures lastWorkspace == workspace
      ensures lastGroupId == if groupId.Some? then groupId.value else old(lastGroupId)
      ensures lastLanguage == if language.Some? then language.value else old(lastLanguage)
      ensures recentWorkspaces == old(recentWorkspaces)
    {
      lastWorkspace := workspace;
      if groupId.Some? {
        lastGroupId := groupId.value;
      }
      if language.Some? {
        lastLanguage := language.value;
      }
    }

    method Reset()
      modifies this
      ensures Valid()
      ensures recentWorkspaces == [] && lastWorkspace == None && lastGroupId == None && lastLanguage == None
    {
      recentWorkspaces := [];
      lastWorkspace := None;
      lastGroupId := None;
      lastLanguage := None;
    }
  }
}
