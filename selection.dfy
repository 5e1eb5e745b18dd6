/**
 * The glyph-selection state machine of js/modules/selection.js (js/app.js
 * keeps an identical copy over module-level variables): a set of selected
 * glyph indices, the anchor a shift-click range starts from, and the
 * focused index.
 */
module Selection {

  /** The set after toggling idx: idx flips membership, but a selection
      never becomes empty, so removing the only member keeps it. */
  function Toggled(s: set<int>, idx: int): (r: set<int>)
    ensures r != {}
    ensures idx in s && s != {idx} ==> r == s - {idx}
    ensures idx !in s ==> r == s + {idx}
    ensures s == {idx} ==> r == {idx}
  {
    if idx in s then (if s - {idx} == {} then {idx} else s - {idx}) else s + {idx}
  }

  predicate Between(lo: int, hi: int, i: int) { lo <= i <= hi }

  function Min(a: int, b: int): int { if a < b then a else b }
  function Max(a: int, b: int): int { if a < b then b else a }

  /** Every index from the smaller to the larger of a and b. */
  function Span(a: int, b: int): (r: set<int>)
    ensures a in r && b in r
    ensures forall i :: i in r <==> Between(Min(a, b), Max(a, b), i)
  {
    var lo, hi := Min(a, b), Max(a, b);
    set i | lo <= i <= hi && Between(lo, hi, i)
  }

  class SelectionState {
    var selectedIndex: int
    var selectedSet: set<int>
    var selectionAnchor: int

    /** The invariant every operation keeps: something is selected. */
    predicate Valid()
      reads this
    {
      selectedSet != {}
    }

    /** `createSelectionState`. */
    constructor (initialIndex: int)
      ensures Valid()
      ensures selectedSet == {initialIndex}
      ensures selectionAnchor == initialIndex && selectedIndex == initialIndex
    {
      selectedIndex := initialIndex;
      selectedSet := {initialIndex};
      selectionAnchor := initialIndex;
    }

    /** `setSingleSelection`. */
    method SetSingleSelection(idx: int)
      modifies this
      ensures Valid()
      ensures selectedSet == {idx}
      ensures selectionAnchor == idx && selectedIndex == idx
    {
      selectedSet := {idx};
      selectionAnchor := idx;
      selectedIndex := idx;
    }

    /** `toggleSelection`. */
    method ToggleSelection(idx: int)
      modifies this
      ensures Valid()
      ensures selectedSet == Toggled(old(selectedSet), idx)
      ensures selectionAnchor == idx && selectedIndex == idx
    {
      if idx in selectedSet {
        selectedSet := selectedSet - {idx};
      } else {
        selectedSet := selectedSet + {idx};
      }
      selectedIndex := idx;
      selectionAnchor := idx;
      if selectedSet == {} {
        selectedSet := selectedSet + {idx};
      }
    }

    /** `rangeSelect`: select the span from the anchor to toIdx; the
        anchor stays where it was. */
    method RangeSelect(toIdx: int)
      modifies this
      ensures Valid()
      ensures selectedSet == Span(old(selectionAnchor), toIdx)
      ensures selectionAnchor == old(selectionAnchor) && selectedIndex == toIdx
    {
      var lo := Min(selectionAnchor, toIdx);
      var hi := Max(selectionAnchor, toIdx);
      selectedSet := {};
      var i := lo;
      while i <= hi
        invariant lo <= i <= hi + 1
        invariant forall j :: j in selectedSet <==> lo <= j < i
        invariant selectionAnchor == old(selectionAnchor)
      {
        selectedSet := selectedSet + {i};
        i := i + 1;
      }
      assert forall j :: j in selectedSet <==> j in Span(selectionAnchor, toIdx);
      selectedIndex := toIdx;
    }
  }

  /** Toggling twice restores a selection that did not consist of idx
      alone. */
  lemma ToggleTwice(s: set<int>, idx: int)
    requires s != {} && s != {idx}
    ensures Toggled(Toggled(s, idx), idx) == s
  {
    if idx in s {
      assert Toggled(s, idx) == s - {idx};
      assert s - {idx} != {idx};
    } else {
      assert s <= Toggled(s, idx);
    }
  }

  /** A range selection holds |to - anchor| + 1 indices. */
  lemma {:induction false} SpanSize(a: int, b: int)
    ensures |Span(a, b)| == (if a <= b then b - a + 1 else a - b + 1)
    decreases if a <= b then b - a else a - b
  {
    if a < b {
      SpanSize(a, b - 1);
      assert Span(a, b) == Span(a, b - 1) + {b};
    } else if b < a {
      SpanSize(a, b + 1);
      assert Span(a, b) == Span(a, b + 1) + {b};
    } else {
      assert Span(a, b) == {a};
    }
  }
}
