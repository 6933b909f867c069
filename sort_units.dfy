/**
 * sortUnits (frontend/src/utils/sort.ts): a copy of the unit list, left in
 * its order ('manual') or sorted by id or by source text with the locale
 * comparison. Array.prototype.sort is stable, so units that compare equal
 * keep their order. The locale order is a parameter `le`, any total preorder.
 */
module SortUnits {
  import opened Common
  import opened Types

  /** The SortMode of sort.ts (not the editor store's). */
  datatype UnitSortMode = ManualOrder | KeyAscending | SourceAscending

  function IdOrder(le: (string, string) -> bool): (TranslationUnit, TranslationUnit) -> bool {
    (a: TranslationUnit, b: TranslationUnit) => le(a.id, b.id)
  }

  function SourceOrder(le: (string, string) -> bool): (TranslationUnit, TranslationUnit) -> bool {
    (a: TranslationUnit, b: TranslationUnit) => le(a.source, b.source)
  }

  lemma UnitOrdersTotal(le: (string, string) -> bool)
    requires TotalPreorder(le)
    ensures TotalPreorder(IdOrder(le)) && TotalPreorder(SourceOrder(le))
  {
    forall a: TranslationUnit, b: TranslationUnit ensures IdOrder(le)(a, b) || IdOrder(le)(b, a) {
      assert le(a.id, b.id) || le(b.id, a.id);
    }
    forall a: TranslationUnit, b: TranslationUnit, c: TranslationUnit | IdOrder(le)(a, b) && IdOrder(le)(b, c)
      ensures IdOrder(le)(a, c)
    {
      assert le(a.id, b.id) && le(b.id, c.id);
    }
    forall a: TranslationUnit, b: TranslationUnit ensures SourceOrder(le)(a, b) || SourceOrder(le)(b, a) {
      assert le(a.source, b.source) || le(b.source, a.source);
    }
    forall a: TranslationUnit, b: TranslationUnit, c: TranslationUnit | SourceOrder(le)(a, b) && SourceOrder(le)(b, c)
      ensures SourceOrder(le)(a, c)
    {
      assert le(a.source, b.source) && le(b.source, c.source);
    }
  }

  /** The order a mode sorts by; 'manual' keeps the list as it is. */
  function ModeOrder(mode: UnitSortMode, le: (string, string) -> bool): (TranslationUnit, TranslationUnit) -> bool
    requires mode != ManualOrder
  {
    if mode == KeyAscending then IdOrder(le) else SourceOrder(le)
  }

  /** sortUnits: the result is always a permutation of the input (which
      stays as it was, being a value here); 'manual' gives the input order,
      the other modes a list sorted by their key. */
  function SortUnits(units: seq<TranslationUnit>, mode: UnitSortMode, le: (string, string) -> bool): (r: seq<TranslationUnit>)
    requires TotalPreorder(le)
    ensures multiset(r) == multiset(units)
    ensures mode == ManualOrder ==> r == units
    ensures mode == KeyAscending ==> SortedBy(r, IdOrder(le))
    ensures mode == SourceAscending ==> SortedBy(r, SourceOrder(le))
  {
    if mode == ManualOrder then units
    else
      UnitOrdersTotal(le);
      SortBySorted(units, ModeOrder(mode, le));
      SortBy(units, ModeOrder(mode, le))
  }

  /** Units with equal keys keep their relative order. */
  lemma SortUnitsStable(units: seq<TranslationUnit>, mode: UnitSortMode, le: (string, string) -> bool, x: TranslationUnit)
    requires TotalPreorder(le) && mode != ManualOrder
    ensures EquivalentTo(SortUnits(units, mode, le), x, ModeOrder(mode, le)) == EquivalentTo(units, x, ModeOrder(mode, le))
  {
    UnitOrdersTotal(le);
    SortByStable(units, x, ModeOrder(mode, le));
  }

  /** The two cases of the unit tests, under code-point order (on these
      ASCII keys the locale order agrees with it). */
  lemma SortUnitsExamples()
    ensures TotalPreorder(CodePointOrder())
    ensures var units := [TranslationUnit("b.key", "Zebra", ""), TranslationUnit("a.key", "Apple", "")];
      && SortUnits(units, KeyAscending, CodePointOrder()) == [units[1], units[0]]
      && SortUnits(units, SourceAscending, CodePointOrder()) == [units[1], units[0]]
  {
    StrLePreorder();
    var units := [TranslationUnit("b.key", "Zebra", ""), TranslationUnit("a.key", "Apple", "")];
    assert !StrLe("b.key", "a.key");
    assert !StrLe("Zebra", "Apple");
    assert units[..1] == [units[0]];
  }
}
