/**
 * The unit table of the React front end
 * (frontend/src/components/TranslationTable.tsx): the search filter, the
 * progress figure, the map of pending edits, saving them, adding a key,
 * reordering by drag and drop, and applying an automatic sort. The
 * component's callbacks (onSave, onAddKey, onReorder) are the methods'
 * results; its props are their parameters.
 */
module TranslationTable {
  import opened Common
  import opened Types
  import opened SortUnits

  // ---------------------------------------------------------------------
  // filteredUnits
  // ---------------------------------------------------------------------

  /** The filter's test: an empty query keeps everything; otherwise the
      lower-cased query must occur in the lower-cased id or source, or in the
      target unless the file is source-only. */
  predicate Matches(u: TranslationUnit, searchQuery: string, isSourceOnly: bool) {
    searchQuery == "" ||
    var query := Lower(searchQuery);
    Contains(Lower(u.id), query) || Contains(Lower(u.source), query)
      || (!isSourceOnly && Contains(Lower(u.target), query))
  }

  function MatchesQuery(searchQuery: string, isSourceOnly: bool): TranslationUnit -> bool {
    u => Matches(u, searchQuery, isSourceOnly)
  }

  /** filteredUnits: the matching units, in their order; an empty query keeps
      the whole list. */
  function FilteredUnits(units: seq<TranslationUnit>, searchQuery: string, isSourceOnly: bool): (r: seq<TranslationUnit>)
    ensures searchQuery == "" ==> r == units
    ensures forall u :: u in r <==> u in units && Matches(u, searchQuery, isSourceOnly)
    ensures Subsequence(r, units)
  {
    Filter(units, MatchesQuery(searchQuery, isSourceOnly))
  }

  // ---------------------------------------------------------------------
  // translationProgress
  // ---------------------------------------------------------------------

  /** `unit.target && unit.target.trim() !== ''` */
  predicate Translated(u: TranslationUnit) {
    u.target != "" && Trim(u.target) != ""
  }

  function TranslatedCount(units: seq<TranslationUnit>): (k: nat)
    ensures k <= |units|
  {
    |Filter(units, (u: TranslationUnit) => Translated(u))|
  }

  /** `Math.round(k / n * 100)` in exact arithmetic: the whole number within
      one half of 100k/n, a half rounding up. */
  function RoundedPercent(k: nat, n: nat): (r: nat)
    requires 0 < n && k <= n
    ensures r <= 100
    ensures (2 * r - 1) * n <= 200 * k < (2 * r + 1) * n
  {
    var r := (200 * k + n) / (2 * n);
    assert 2 * n * r <= 200 * k + n < 2 * n * r + 2 * n;
    r
  }

  /** translationProgress: 0 for a source-only file or an empty list,
      otherwise the rounded share of translated units. */
  function TranslationProgress(units: seq<TranslationUnit>, isSourceOnly: bool): (r: nat)
    ensures r <= 100
    ensures isSourceOnly || units == [] ==> r == 0
    ensures !isSourceOnly && units != [] ==>
      (2 * r - 1) * |units| <= 200 * TranslatedCount(units) < (2 * r + 1) * |units|
  {
    if isSourceOnly || |units| == 0 then 0
    else RoundedPercent(TranslatedCount(units), |units|)
  }

  /** All translated reads 100, none translated reads 0, and more
      translated units never lower the figure. */
  lemma RoundedPercentBounds(k: nat, k': nat, n: nat)
    requires 0 < n && k <= k' <= n
    ensures k == n ==> RoundedPercent(k, n) == 100
    ensures k == 0 ==> RoundedPercent(k, n) == 0
    ensures RoundedPercent(k, n) <= RoundedPercent(k', n)
  {
    var r, r' := RoundedPercent(k, n), RoundedPercent(k', n);
    if r > r' {
      MulLe(2 * r' + 1, 2 * r - 1, n);
    }
    if k == n && r < 100 {
      MulLe(2 * r + 1, 200, n);
    }
    if k == 0 && r > 0 {
      MulLe(1, 2 * r - 1, n);
    }
  }

  lemma MulLe(a: int, b: int, n: nat)
    requires a <= b
    ensures a * n <= b * n
  {
  }

  // ---------------------------------------------------------------------
  // The pending edits
  // ---------------------------------------------------------------------

  /** modifiedUnits: original id to edited unit, in insertion order. */
  type Edits = seq<(string, TranslationUnit)>

  /** handleValueChange on the map: an unknown id changes nothing; otherwise
      the field is written into the pending copy (or a fresh copy of the
      original) and the entry is dropped when it matches the original again. */
  function ValueChanged(m: Edits, units: seq<TranslationUnit>, unitId: string, field: Field, value: string): (r: Edits)
    requires UniqueKeys(m)
    ensures UniqueKeys(r)
    ensures FindById(units, unitId).None? ==> r == m
    ensures forall k :: k != unitId ==> Get(r, k) == Get(m, k)
    ensures FindById(units, unitId).Some? ==>
      var current := GetOr(m, unitId, FindById(units, unitId).value);
      Get(r, unitId) == if WithField(current, field, value) == FindById(units, unitId).value then None
                        else Some(WithField(current, field, value))
  {
    match FindById(units, unitId)
    case None => m
    case Some(original) =>
      var current := GetOr(m, unitId, original);
      var updated := WithField(current, field, value);
      if updated == original then Delete(m, unitId)
      else
        PutUnique(m, unitId, updated);
        Put(m, unitId, updated)
  }

  /** No pending entry equals the unit it was copied from. */
  ghost predicate NoneUnchanged(m: Edits, units: seq<TranslationUnit>) {
    UniqueKeys(m) && forall i :: 0 <= i < |m| ==> FindById(units, m[i].0) != Some(m[i].1)
  }

  lemma ValueChangedKeepsNoneUnchanged(m: Edits, units: seq<TranslationUnit>, unitId: string, field: Field, value: string)
    requires NoneUnchanged(m, units)
    ensures NoneUnchanged(ValueChanged(m, units, unitId, field, value), units)
  {
    var r := ValueChanged(m, units, unitId, field, value);
    forall i | 0 <= i < |r| ensures FindById(units, r[i].0) != Some(r[i].1) {
      UniqueKeysIndex(r, i);
      if r[i].0 != unitId {
        var j :| 0 <= j < |m| && m[j].0 == r[i].0 by {
          assert Get(m, r[i].0) == Some(r[i].1);
          assert r[i].0 in Keys(m);
        }
        UniqueKeysIndex(m, j);
      }
    }
  }

  lemma WithFieldRestore(u: TranslationUnit, f: Field, v: string)
    ensures WithField(WithField(u, f, v), f, FieldOf(u, f)) == u
  {
  }

  lemma WithFieldTwice(u: TranslationUnit, f: Field, a: string, b: string)
    ensures WithField(WithField(u, f, a), f, b) == WithField(u, f, b)
  {
  }

  /** Typing a value and then the original value back leaves no pending
      entry for the unit, and nothing else changes. */
  lemma EditThenRevert(m: Edits, units: seq<TranslationUnit>, unitId: string, field: Field, value: string)
    requires UniqueKeys(m) && Get(m, unitId).None? && FindById(units, unitId).Some?
    ensures var original := FindById(units, unitId).value;
      var r := ValueChanged(ValueChanged(m, units, unitId, field, value), units, unitId, field, FieldOf(original, field));
      && Get(r, unitId).None?
      && forall k :: Get(r, k) == Get(m, k)
  {
    var original := FindById(units, unitId).value;
    var m1 := ValueChanged(m, units, unitId, field, value);
    WithFieldRestore(original, field, value);
    if Get(m1, unitId).Some? {
      assert Get(m1, unitId) == Some(WithField(original, field, value));
    }
  }

  /** Each keystroke rewrites the same entry: after two changes of one
      field the map reads as after the second alone. */
  lemma LastValueWins(m: Edits, units: seq<TranslationUnit>, unitId: string, field: Field, a: string, b: string)
    requires UniqueKeys(m)
    ensures var twice := ValueChanged(ValueChanged(m, units, unitId, field, a), units, unitId, field, b);
      forall k :: Get(twice, k) == Get(ValueChanged(m, units, unitId, field, b), k)
  {
    if FindById(units, unitId).Some? {
      var original := FindById(units, unitId).value;
      var current := GetOr(m, unitId, original);
      WithFieldTwice(current, field, a, b);
    }
  }

  /** One onSave call: original id, new id, source, target. */
  datatype SaveCall = SaveCall(originalId: string, newId: string, source: string, target: string)

  /** The calls handleSaveAll makes, one per entry in map order; a
      source-only file saves an empty target. */
  function SaveCalls(m: Edits, isSourceOnly: bool): (r: seq<SaveCall>)
    ensures |r| == |m|
    ensures forall i :: 0 <= i < |m| ==>
      r[i] == SaveCall(m[i].0, m[i].1.id, m[i].1.source, if isSourceOnly then "" else m[i].1.target)
  {
    seq(|m|, i requires 0 <= i < |m| => SaveCall(m[i].0, m[i].1.id, m[i].1.source, if isSourceOnly then "" else m[i].1.target))
  }

  /** The save test: typing "Beispiel" into the empty target of unit k and
      saving calls onSave('k', 'k', 'Hello', 'Beispiel') once. */
  lemma SaveAllExample()
    ensures var units := [TranslationUnit("k", "Hello", "")];
      SaveCalls(ValueChanged([], units, "k", Target, "Beispiel"), false) == [SaveCall("k", "k", "Hello", "Beispiel")]
  {
    var units := [TranslationUnit("k", "Hello", "")];
    assert FindById(units, "k") == Some(units[0]);
  }

  // ---------------------------------------------------------------------
  // handleDragEnd
  // ---------------------------------------------------------------------

  /** arrayMove of @dnd-kit/sortable: the element at `from` is taken out and
      put back at `to`. */
  function ArrayMove<T>(s: seq<T>, from: int, to: int): (r: seq<T>)
    requires 0 <= from < |s| && 0 <= to < |s|
    ensures |r| == |s| && r[to] == s[from]
    ensures multiset(r) == multiset(s)
  {
    var rest := s[..from] + s[from + 1..];
    assert s == s[..from] + [s[from]] + s[from + 1..];
    assert multiset(s) == multiset(rest) + multiset{s[from]};
    assert rest == rest[..to] + rest[to..];
    var r := rest[..to] + [s[from]] + rest[to..];
    assert multiset(r) == multiset(rest[..to]) + multiset{s[from]} + multiset(rest[to..]);
    r
  }

  /** Moving back undoes a move. */
  lemma ArrayMoveBack<T>(s: seq<T>, from: int, to: int)
    requires 0 <= from < |s| && 0 <= to < |s|
    ensures ArrayMove(ArrayMove(s, from, to), to, from) == s
  {
    var rest := s[..from] + s[from + 1..];
    var r := ArrayMove(s, from, to);
    assert r[..to] + r[to + 1..] == rest;
    assert s == rest[..from] + [s[from]] + rest[from..];
  }

  /** The comparator of the reorder: units whose id is in the new order
      come first, by position there; the others compare equal. */
  function DragCompare(ids: seq<string>, a: TranslationUnit, b: TranslationUnit): int {
    var aIndex := IndexOf(ids, a.id);
    var bIndex := IndexOf(ids, b.id);
    if aIndex != -1 && bIndex != -1 then aIndex - bIndex
    else if aIndex != -1 then -1
    else if bIndex != -1 then 1
    else 0
  }

  function DragOrder(ids: seq<string>): (TranslationUnit, TranslationUnit) -> bool {
    (a: TranslationUnit, b: TranslationUnit) => DragCompare(ids, a, b) <= 0
  }

  lemma DragOrderTotal(ids: seq<string>)
    ensures TotalPreorder(DragOrder(ids))
  {
  }

  /** `[...units].sort(...)` with the new order's ids (the sort is stable). */
  function Reordered(units: seq<TranslationUnit>, newOrder: seq<TranslationUnit>): (r: seq<TranslationUnit>)
    ensures multiset(r) == multiset(units)
  {
    DragOrderTotal(Ids(newOrder));
    SortBy(units, DragOrder(Ids(newOrder)))
  }

  /** Two units of a list with unique ids that share an id are the same. */
  lemma SameIdSameUnit(units: seq<TranslationUnit>, a: TranslationUnit, b: TranslationUnit)
    requires Distinct(Ids(units)) && a in units && b in units && a.id == b.id
    ensures a == b
  {
    var i :| 0 <= i < |units| && units[i] == a;
    var j :| 0 <= j < |units| && units[j] == b;
    assert Ids(units)[i] == a.id && Ids(units)[j] == b.id;
    if i != j {
      assert false;
    }
  }

  lemma IdsDistinctUnits(units: seq<TranslationUnit>)
    requires Distinct(Ids(units))
    ensures Distinct(units)
  {
    forall i, j | 0 <= i < j < |units| ensures units[i] != units[j] {
      assert Ids(units)[i] != Ids(units)[j];
    }
  }

  /** Facts about a rearranged part of a list with unique ids: its ids are
      unique, and a unit of the list has its id among them exactly when it
      is in the part. */
  lemma PartIds(units: seq<TranslationUnit>, p: TranslationUnit -> bool, newOrder: seq<TranslationUnit>)
    requires Distinct(Ids(units)) && multiset(newOrder) == multiset(Filter(units, p))
    ensures Distinct(Ids(newOrder))
    ensures forall u :: u in units ==> (u.id in Ids(newOrder) <==> p(u))
    ensures forall u :: u in newOrder ==> u in units && p(u)
  {
    var filtered := Filter(units, p);
    IdsDistinctUnits(units);
    FilterDistinct(units, p);
    DistinctPermutation(filtered, newOrder);
    PermutationMembers(filtered, newOrder);
    var ids := Ids(newOrder);
    forall i, j | 0 <= i < j < |ids| ensures ids[i] != ids[j] {
      if ids[i] == ids[j] {
        SameIdSameUnit(units, newOrder[i], newOrder[j]);
      }
    }
    forall u | u in units ensures u.id in ids <==> p(u) {
      if u.id in ids {
        var i :| 0 <= i < |ids| && ids[i] == u.id;
        SameIdSameUnit(units, u, newOrder[i]);
      }
      if p(u) {
        var i :| 0 <= i < |newOrder| && newOrder[i] == u;
        assert ids[i] == u.id;
      }
    }
  }

  /** The position a unit of the new order has in it. */
  lemma IndexOfDistinct(ids: seq<string>, i: int)
    requires Distinct(ids) && 0 <= i < |ids|
    ensures IndexOf(ids, ids[i]) == i
  {
  }

  /** The reference result of a drag: the moved part first, in its new
      order, then every other unit in its original order. */
  function MovedFirst(units: seq<TranslationUnit>, p: TranslationUnit -> bool, newOrder: seq<TranslationUnit>): seq<TranslationUnit> {
    newOrder + Filter(units, Negated(p))
  }

  lemma MovedFirstSorted(units: seq<TranslationUnit>, p: TranslationUnit -> bool, newOrder: seq<TranslationUnit>)
    requires Distinct(Ids(units)) && multiset(newOrder) == multiset(Filter(units, p))
    ensures SortedBy(MovedFirst(units, p, newOrder), DragOrder(Ids(newOrder)))
  {
    PartIds(units, p, newOrder);
    var ids := Ids(newOrder);
    var rest := Filter(units, Negated(p));
    var x := newOrder + rest;
    forall i, j | 0 <= i < j < |x| ensures DragCompare(ids, x[i], x[j]) <= 0 {
      if j < |newOrder| {
        IndexOfDistinct(ids, i);
        IndexOfDistinct(ids, j);
      } else {
        assert x[j] in rest;
        assert IndexOf(ids, x[j].id) == -1;
        if i < |newOrder| {
          IndexOfDistinct(ids, i);
        } else {
          assert x[i] in rest;
        }
      }
    }
  }

  /** The comparator's equivalence: a unit of the new order is equivalent
      only to the unit with its id; the others are equivalent to each other. */
  lemma DragEquivalence(ids: seq<string>, x: TranslationUnit, y: TranslationUnit)
    requires Distinct(ids)
    ensures var le := DragOrder(ids);
      (le(y, x) && le(x, y)) <==> if x.id in ids then y.id == x.id else y.id !in ids
  {
    if x.id in ids && y.id in ids {
      var i := IndexOf(ids, x.id);
      var j := IndexOf(ids, y.id);
      IndexOfDistinct(ids, i);
      IndexOfDistinct(ids, j);
    }
  }

  lemma MovedFirstEquivalents(units: seq<TranslationUnit>, p: TranslationUnit -> bool, newOrder: seq<TranslationUnit>, x: TranslationUnit)
    requires Distinct(Ids(units)) && multiset(newOrder) == multiset(Filter(units, p))
    ensures var le := DragOrder(Ids(newOrder));
      EquivalentTo(MovedFirst(units, p, newOrder), x, le) == EquivalentTo(units, x, le)
  {
    PartIds(units, p, newOrder);
    var ids := Ids(newOrder);
    var le := DragOrder(ids);
    var q := EquivalenceTest(x, le);
    EquivalentToFilter(MovedFirst(units, p, newOrder), x, le);
    EquivalentToFilter(units, x, le);
    FilterAppend(newOrder, Filter(units, Negated(p)), q);
    if x.id in ids {
      MovedEquivalents(units, p, newOrder, x, q);
    } else {
      UnmovedEquivalents(units, p, newOrder, x, q);
    }
  }

  /** The one unit, in both the list and the new order, that is equivalent
      to a unit whose id the new order holds. */
  lemma MovedWitness(units: seq<TranslationUnit>, p: TranslationUnit -> bool, newOrder: seq<TranslationUnit>,
                     x: TranslationUnit, q: TranslationUnit -> bool) returns (w: TranslationUnit)
    requires Distinct(Ids(units)) && multiset(newOrder) == multiset(Filter(units, p))
    requires x.id in Ids(newOrder)
    requires q == EquivalenceTest(x, DragOrder(Ids(newOrder)))
    ensures w in newOrder && w in units && p(w)
    ensures forall y :: y in units ==> (q(y) <==> y == w)
    ensures forall y :: y in newOrder ==> (q(y) <==> y == w)
  {
    PartIds(units, p, newOrder);
    var ids := Ids(newOrder);
    forall y ensures q(y) <==> y.id == x.id {
      DragEquivalence(ids, x, y);
    }
    var k :| 0 <= k < |ids| && ids[k] == x.id;
    w := newOrder[k];
    assert w.id == x.id;
    forall y | y in units ensures q(y) <==> y == w {
      if y.id == w.id {
        SameIdSameUnit(units, y, w);
      }
    }
  }

  /** A unit of the new order is equivalent only to itself. */
  lemma MovedEquivalents(units: seq<TranslationUnit>, p: TranslationUnit -> bool, newOrder: seq<TranslationUnit>,
                         x: TranslationUnit, q: TranslationUnit -> bool)
    requires Distinct(Ids(units)) && multiset(newOrder) == multiset(Filter(units, p))
    requires x.id in Ids(newOrder)
    requires q == EquivalenceTest(x, DragOrder(Ids(newOrder)))
    ensures Filter(newOrder, q) + Filter(Filter(units, Negated(p)), q) == Filter(units, q)
  {
    var w := MovedWitness(units, p, newOrder, x, q);
    IdsDistinctUnits(units);
    FilterDistinct(units, p);
    DistinctPermutation(Filter(units, p), newOrder);
    FilterSingle(newOrder, q, w);
    FilterSingle(units, q, w);
    var rest := Filter(units, Negated(p));
    forall y | y in rest ensures !q(y) {
      assert y in units && !p(y);
    }
    FilterNone(rest, q);
  }

  /** The units outside the new order are all equivalent, so they keep
      their original order. */
  lemma UnmovedEquivalents(units: seq<TranslationUnit>, p: TranslationUnit -> bool, newOrder: seq<TranslationUnit>,
                           x: TranslationUnit, q: TranslationUnit -> bool)
    requires Distinct(Ids(units)) && multiset(newOrder) == multiset(Filter(units, p))
    requires x.id !in Ids(newOrder)
    requires q == EquivalenceTest(x, DragOrder(Ids(newOrder)))
    ensures Filter(newOrder, q) + Filter(Filter(units, Negated(p)), q) == Filter(units, q)
  {
    PartIds(units, p, newOrder);
    var ids := Ids(newOrder);
    forall y ensures q(y) <==> y.id !in ids {
      DragEquivalence(ids, x, y);
    }
    FilterNone(newOrder, q);
    var rest := Filter(units, Negated(p));
    assert Filter(rest, q) == rest;
    FilterExt(units, q, Negated(p));
  }

  /** The drag's result, for units with unique ids: the part that was
      moved comes first, exactly in its new order, and every other unit
      follows in its original order. */
  lemma ReorderedIsMovedFirst(units: seq<TranslationUnit>, p: TranslationUnit -> bool, newOrder: seq<TranslationUnit>)
    requires Distinct(Ids(units)) && multiset(newOrder) == multiset(Filter(units, p))
    ensures Reordered(units, newOrder) == MovedFirst(units, p, newOrder)
  {
    var le := DragOrder(Ids(newOrder));
    var x := MovedFirst(units, p, newOrder);
    DragOrderTotal(Ids(newOrder));
    SortBySorted(units, le);
    MovedFirstSorted(units, p, newOrder);
    FilterSplit(units, p);
    forall y ensures EquivalentTo(SortBy(units, le), y, le) == EquivalentTo(x, y, le) {
      SortByStable(units, y, le);
      MovedFirstEquivalents(units, p, newOrder, y);
    }
    SortedUnique(SortBy(units, le), x, le);
  }

  // ---------------------------------------------------------------------
  // The component's state
  // ---------------------------------------------------------------------

  class Table {
    /** modifiedUnits and its ref, which every handler keeps equal. */
    var modified: Edits
    var isSaving: bool
    var showAddDialog: bool
    var newKeyId: string
    var newKeySource: string
    var sortMode: UnitSortMode

    ghost predicate Valid()
      reads this
    {
      UniqueKeys(modified)
    }

    constructor()
      ensures Valid()
      ensures modified == [] && !isSaving && !showAddDialog && newKeyId == "" && newKeySource == ""
      ensures sortMode == ManualOrder
    {
      modified := [];
      isSaving := false;
      showAddDialog := false;
      newKeyId := "";
      newKeySource := "";
      sortMode := ManualOrder;
    }

    predicate HasChanges()
      reads this
    {
      |modified| > 0
    }

    method HandleValueChange(units: seq<TranslationUnit>, unitId: string, field: Field, value: string)
      requires Valid()
      modifies this
      ensures Valid()
      ensures modified == ValueChanged(old(modified), units, unitId, field, value)
      ensures isSaving == old(isSaving) && showAddDialog == old(showAddDialog)
      ensures newKeyId == old(newKeyId) && newKeySource == old(newKeySource) && sortMode == old(sortMode)
    {
      var originalUnit := FindById(units, unitId);
      if originalUnit.None? {
        return;
      }
      var currentModified := GetOr(modified, unitId, originalUnit.value);
      var updated := WithField(currentModified, field, value);
      if updated == originalUnit.value {
        modified := Delete(modified, unitId);
        return;
      }
      PutUnique(modified, unitId, updated);
      modified := Put(modified, unitId, updated);
    }

    /** handleSaveAll. `failAt` is the index of the first onSave call that
        rejects (at or beyond the map's size when none does): the loop stops
        there and the map is kept. */
    method HandleSaveAll(isSourceOnly: bool, failAt: nat) returns (calls: seq<SaveCall>)
      requires Valid()
      modifies this
      ensures Valid()
      ensures old(modified) == [] ==> calls == [] && modified == old(modified) && isSaving == old(isSaving)
      ensures (old(modified) != [] && failAt >= |old(modified)|) ==>
        calls == SaveCalls(old(modified), isSourceOnly) && modified == [] && !isSaving
      ensures (old(modified) != [] && failAt < |old(modified)|) ==>
        calls == SaveCalls(old(modified), isSourceOnly)[..failAt + 1] && modified == old(modified) && !isSaving
      ensures showAddDialog == old(showAddDialog) && newKeyId == old(newKeyId)
      ensures newKeySource == old(newKeySource) && sortMode == old(sortMode)
    {
      calls := [];
      if !HasChanges() {
        return;
      }
      isSaving := true;
      var entries := modified;
      var i := 0;
      while i < |entries|
        invariant 0 <= i <= |entries| && i <= failAt
        invariant calls == SaveCalls(entries, isSourceOnly)[..i]
        invariant modified == entries
      {
        var (originalId, unit) := entries[i];
        calls := calls + [SaveCall(originalId, unit.id, unit.source, if isSourceOnly then "" else unit.target)];
        if i == failAt {
          isSaving := false;
          return;
        }
        i := i + 1;
      }
      modified := [];
      isSaving := false;
    }

    /** handleAddKey: onAddKey gets the trimmed id and source when neither
        is blank, and the dialog closes and clears; otherwise nothing. */
    method HandleAddKey() returns (call: Option<(string, string)>)
      modifies this
      ensures call.Some? <==> !IsBlank(old(newKeyId)) && !IsBlank(old(newKeySource))
      ensures call.Some? ==>
        && call.value == (Trim(old(newKeyId)), Trim(old(newKeySource)))
        && newKeyId == "" && newKeySource == "" && !showAddDialog
      ensures call.None? ==>
        newKeyId == old(newKeyId) && newKeySource == old(newKeySource) && showAddDialog == old(showAddDialog)
      ensures modified == old(modified) && isSaving == old(isSaving) && sortMode == old(sortMode)
    {
      TrimEmptyIffBlank(newKeyId);
      TrimEmptyIffBlank(newKeySource);
      if Trim(newKeyId) != "" && Trim(newKeySource) != "" {
        call := Some((Trim(newKeyId), Trim(newKeySource)));
        newKeyId := "";
        newKeySource := "";
        showAddDialog := false;
      } else {
        call := None;
      }
    }

    /** handleDragEnd: no reorder without a drop target, when a unit is
        dropped on itself, or when either id is not among the filtered
        units; otherwise onReorder gets the reordered list and the sort mode
        goes back to manual. */
    method HandleDragEnd(units: seq<TranslationUnit>, searchQuery: string, isSourceOnly: bool,
                         activeId: string, overId: Option<string>)
      returns (reorder: Option<seq<TranslationUnit>>)
      modifies this
      ensures var filtered := FilteredUnits(units, searchQuery, isSourceOnly);
        reorder.Some? <==>
          overId.Some? && activeId != overId.value && activeId in Ids(filtered) && overId.value in Ids(filtered)
      ensures reorder.Some? ==>
        var filtered := FilteredUnits(units, searchQuery, isSourceOnly);
        var oldIndex := IndexOf(Ids(filtered), activeId);
        var newIndex := IndexOf(Ids(filtered), overId.value);
        && reorder.value == Reordered(units, ArrayMove(filtered, oldIndex, newIndex))
        && sortMode == ManualOrder
      ensures reorder.None? ==> sortMode == old(sortMode)
      ensures modified == old(modified) && isSaving == old(isSaving) && showAddDialog == old(showAddDialog)
      ensures newKeyId == old(newKeyId) && newKeySource == old(newKeySource)
    {
      reorder := None;
      if overId.Some? && activeId != overId.value {
        var filtered := FilteredUnits(units, searchQuery, isSourceOnly);
        var oldIndex := IndexOf(Ids(filtered), activeId);
        var newIndex := IndexOf(Ids(filtered), overId.value);
        if oldIndex != -1 && newIndex != -1 {
          var newOrder := ArrayMove(filtered, oldIndex, newIndex);
          reorder := Some(Reordered(units, newOrder));
          sortMode := ManualOrder;
        }
      }
    }

    /** handleApplySort: nothing in manual mode, otherwise onReorder gets
        the units sorted by the selected mode. */
    method HandleApplySort(units: seq<TranslationUnit>, le: (string, string) -> bool)
      returns (reorder: Option<seq<TranslationUnit>>)
      requires TotalPreorder(le)
      ensures sortMode == ManualOrder ==> reorder.None?
      ensures sortMode != ManualOrder ==> reorder == Some(SortUnits.SortUnits(units, sortMode, le))
    {
      if sortMode == ManualOrder {
        return None;
      }
      return Some(SortUnits.SortUnits(units, sortMode, le));
    }
  }

  /** What a drag does to a list with unique ids: the filtered units come
      first, in the order the move left them, then the other units in their
      original order; nothing is lost or duplicated. */
  lemma DragResult(units: seq<TranslationUnit>, searchQuery: string, isSourceOnly: bool, oldIndex: int, newIndex: int)
    requires Distinct(Ids(units))
    requires var filtered := FilteredUnits(units, searchQuery, isSourceOnly);
      0 <= oldIndex < |filtered| && 0 <= newIndex < |filtered|
    ensures var filtered := FilteredUnits(units, searchQuery, isSourceOnly);
      var newOrder := ArrayMove(filtered, oldIndex, newIndex);
      && Reordered(units, newOrder) == newOrder + Filter(units, Negated(MatchesQuery(searchQuery, isSourceOnly)))
      && multiset(Reordered(units, newOrder)) == multiset(units)
  {
    var filtered := FilteredUnits(units, searchQuery, isSourceOnly);
    ReorderedIsMovedFirst(units, MatchesQuery(searchQuery, isSourceOnly), ArrayMove(filtered, oldIndex, newIndex));
  }
}
