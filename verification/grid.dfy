/**
 * The periodic-table tab: a 7 x 18 grid of cells, filled by walking the
 * rows in order and writing each row into the cell its Period and Group
 * name, and two strips for the lanthanides and actinides, which never go
 * into the grid.
 */
module PeriodicGrid {
  import opened Dataset
  import opened Selection

  const MaxGroup: nat := 18
  const MaxPeriod: nat := 7

  predicate InLanthanideRange(n: int) { 57 <= n <= 71 }
  predicate InActinideRange(n: int) { 89 <= n <= 103 }

  /** A subscript a Python list of length `len` accepts; negatives count from the end. */
  predicate ValidSubscript(i: int, len: nat) { -(len as int) <= i < len }

  function Slot(i: int, len: nat): (k: nat)
    requires ValidSubscript(i, len)
    ensures k < len
    ensures 0 <= i ==> k == i
    ensures i < 0 ==> k == i + len
  {
    if i < 0 then i + len else i
  }

  /** What the loop does with one row. */
  datatype Placement =
    | Skipped                     // f-block row, or Group or Period missing
    | At(period: nat, group: nat) // written into grid[period][group]
    | IndexError                  // a subscript out of range: the page stops

  function PlacementOf(r: Element): (p: Placement)
    ensures p.At? ==> p.period < MaxPeriod && p.group < MaxGroup
    ensures p.At? ==> r.group.Some? && r.period.Some?
    ensures r.group.None? || r.period.None? ==> p.Skipped?
    ensures p.IndexError? <==>
              && !InLanthanideRange(r.atomicNumber) && !InActinideRange(r.atomicNumber)
              && r.group.Some? && r.period.Some?
              && !(ValidSubscript(r.period.value - 1, MaxPeriod) && ValidSubscript(r.group.value - 1, MaxGroup))
    ensures p.At? || p.IndexError? ==> !InLanthanideRange(r.atomicNumber) && !InActinideRange(r.atomicNumber)
    ensures !InLanthanideRange(r.atomicNumber) && !InActinideRange(r.atomicNumber)
            && r.group.Some? && 1 <= r.group.value <= MaxGroup
            && r.period.Some? && 1 <= r.period.value <= MaxPeriod
            ==> p == At(r.period.value - 1, r.group.value - 1)
  {
    if InLanthanideRange(r.atomicNumber) || InActinideRange(r.atomicNumber) then Skipped
    else if r.group.None? || r.period.None? then Skipped
    else
      var period, group := r.period.value - 1, r.group.value - 1;
      if ValidSubscript(period, MaxPeriod) && ValidSubscript(group, MaxGroup)
      then At(Slot(period, MaxPeriod), Slot(group, MaxGroup))
      else IndexError
  }

  /**
   * A Group or Period of 0 is not an error: the subscript -1 wraps to the
   * last column or row.
   */
  lemma ZeroWrapsToLast(r: Element)
    requires !InLanthanideRange(r.atomicNumber) && !InActinideRange(r.atomicNumber)
    requires r.group.Some? && 0 <= r.group.value <= MaxGroup
    requires r.period.Some? && 0 <= r.period.value <= MaxPeriod
    ensures PlacementOf(r).At?
    ensures r.group.value == 0 ==> PlacementOf(r).group == MaxGroup - 1
    ensures r.period.value == 0 ==> PlacementOf(r).period == MaxPeriod - 1
  {
  }

  /** The row left in cell (p, g) after writing `rows` in order: the last one aimed at it. */
  function Occupant(rows: seq<Element>, p: nat, g: nat): Option<Element>
  {
    if rows == [] then None
    else if PlacementOf(rows[|rows| - 1]) == At(p, g) then Some(rows[|rows| - 1])
    else Occupant(rows[..|rows| - 1], p, g)
  }

  /**
   * `create_periodic_table`'s first loop. `completed` is false when a row's
   * Group or Period indexes outside the grid, which raises IndexError (the
   * `except` clause only catches ValueError and KeyError).
   */
  method BuildGrid(rows: seq<Element>) returns (grid: array2<Option<Element>>, completed: bool)
    ensures fresh(grid) && grid.Length0 == MaxPeriod && grid.Length1 == MaxGroup
    ensures completed <==> forall i :: 0 <= i < |rows| ==> !PlacementOf(rows[i]).IndexError?
    ensures completed ==>
      forall p, g :: 0 <= p < MaxPeriod && 0 <= g < MaxGroup ==> grid[p, g] == Occupant(rows, p, g)
  {
    grid := new Option<Element>[MaxPeriod, MaxGroup]((p, g) => None);
    var i := 0;
    while i < |rows|
      invariant 0 <= i <= |rows|
      invariant forall k :: 0 <= k < i ==> !PlacementOf(rows[k]).IndexError?
      invariant forall p, g :: 0 <= p < MaxPeriod && 0 <= g < MaxGroup ==> grid[p, g] == Occupant(rows[..i], p, g)
    {
      assert rows[..i + 1][..i] == rows[..i];
      match PlacementOf(rows[i]) {
        case Skipped =>
        case IndexError =>
          completed := false;
          return;
        case At(p, g) =>
          grid[p, g] := Some(rows[i]);
      }
      i := i + 1;
    }
    assert rows[..i] == rows;
    completed := true;
  }

  /**
   * Last write wins: the occupant of a cell is a row aimed at that cell,
   * and no later row is aimed at it.
   */
  lemma {:induction false} OccupantIsLastWriter(rows: seq<Element>, p: nat, g: nat)
    requires Occupant(rows, p, g).Some?
    ensures exists i :: 0 <= i < |rows| && rows[i] == Occupant(rows, p, g).value
                        && PlacementOf(rows[i]) == At(p, g)
                        && forall j :: i < j < |rows| ==> PlacementOf(rows[j]) != At(p, g)
  {
    var n := |rows| - 1;
    if PlacementOf(rows[n]) != At(p, g) {
      var front := rows[..n];
      OccupantIsLastWriter(front, p, g);
      var i :| 0 <= i < |front| && front[i] == Occupant(front, p, g).value
               && PlacementOf(front[i]) == At(p, g)
               && forall j :: i < j < |front| ==> PlacementOf(front[j]) != At(p, g);
      assert rows[i] == front[i];
      forall j | i < j < |rows| ensures PlacementOf(rows[j]) != At(p, g) {
        if j < n { assert rows[j] == front[j]; }
      }
    }
  }

  /** Conversely, the last row aimed at a cell is what the cell holds. */
  lemma {:induction false} LastWriterIsOccupant(rows: seq<Element>, i: nat, p: nat, g: nat)
    requires i < |rows| && PlacementOf(rows[i]) == At(p, g)
    requires forall j :: i < j < |rows| ==> PlacementOf(rows[j]) != At(p, g)
    ensures Occupant(rows, p, g) == Some(rows[i])
  {
    var n := |rows| - 1;
    if i < n {
      var front := rows[..n];
      assert front[i] == rows[i];
      forall j | i < j < |front| ensures PlacementOf(front[j]) != At(p, g) {
        assert front[j] == rows[j];
      }
      LastWriterIsOccupant(front, i, p, g);
    }
  }

  /** A cell stays empty exactly when no row is aimed at it. */
  lemma {:induction false} EmptyCellIffUntargeted(rows: seq<Element>, p: nat, g: nat)
    ensures Occupant(rows, p, g).None? <==> forall i :: 0 <= i < |rows| ==> PlacementOf(rows[i]) != At(p, g)
  {
    if rows != [] {
      var n := |rows| - 1;
      var front := rows[..n];
      EmptyCellIffUntargeted(front, p, g);
      if PlacementOf(rows[n]) != At(p, g) {
        forall i | 0 <= i < n ensures rows[i] == front[i] {}
      } else {
        assert Occupant(rows, p, g).Some?;
      }
    }
  }

  /**
   * No lanthanide or actinide, and no row with a missing Group or Period,
   * ever occupies a grid cell.
   */
  lemma GridHoldsNoFBlock(rows: seq<Element>, p: nat, g: nat)
    requires Occupant(rows, p, g).Some?
    ensures var r := Occupant(rows, p, g).value;
            r in rows && !InLanthanideRange(r.atomicNumber) && !InActinideRange(r.atomicNumber)
            && r.group.Some? && r.period.Some?
  {
    OccupantIsLastWriter(rows, p, g);
  }

  /** Appending a skipped row changes no cell. */
  lemma SkippedRowChangesNothing(rows: seq<Element>, r: Element, p: nat, g: nat)
    requires PlacementOf(r).Skipped?
    ensures Occupant(rows + [r], p, g) == Occupant(rows, p, g)
  {
    assert (rows + [r])[..|rows|] == rows;
  }

  /** The lanthanide strip: the rows numbered 57 to 71, in dataset order. */
  function Lanthanides(rows: seq<Element>): (strip: seq<Element>)
    ensures forall r :: r in strip <==> r in rows && InLanthanideRange(r.atomicNumber)
    ensures Subsequence(strip, rows)
  {
    Keep(rows, AtomicBetween(57, 71))
  }

  /** The actinide strip: the rows numbered 89 to 103, in dataset order. */
  function Actinides(rows: seq<Element>): (strip: seq<Element>)
    ensures forall r :: r in strip <==> r in rows && InActinideRange(r.atomicNumber)
    ensures Subsequence(strip, rows)
  {
    Keep(rows, AtomicBetween(89, 103))
  }

  /** On a dataset listed by atomic number, both strips are in ascending order. */
  lemma StripsAscending(rows: seq<Element>)
    requires AscendingByAtomicNumber(rows)
    ensures AscendingByAtomicNumber(Lanthanides(rows))
    ensures AscendingByAtomicNumber(Actinides(rows))
  {
    KeepAscending(rows, AtomicBetween(57, 71));
    KeepAscending(rows, AtomicBetween(89, 103));
  }

  /** Nothing is both in the grid and in a strip. */
  lemma GridAndStripsDisjoint(rows: seq<Element>, p: nat, g: nat)
    requires Occupant(rows, p, g).Some?
    ensures Occupant(rows, p, g).value !in Lanthanides(rows)
    ensures Occupant(rows, p, g).value !in Actinides(rows)
  {
    GridHoldsNoFBlock(rows, p, g);
  }

  /** `element_colors`: the fill of a grid cell, by the row's Type. */
  const ElementColors: map<string, string> := map[
    "Alkali Metal" := "#FF5733",
    "Alkaline Earth Metal" := "#FFBD33",
    "Transition Metal" := "#FFC300",
    "Post-Transition Metal" := "#33FFBD",
    "Metalloid" := "#33FFF3",
    "Nonmetal" := "#337BFF",
    "Halogen" := "#8D33FF",
    "Noble Gas" := "#C700FF",
    "Lanthanide" := "#FF33A8",
    "Actinide" := "#FF3333",
    "Unknown" := "#D3D3D3"
  ]

  const Fallback: string := "#FFFFFF"

  /** `element_colors.get(element_type, "#FFFFFF")`; a NaN Type is no key. */
  function CellColor(elementType: Option<string>): string {
    if elementType.Some? && elementType.value in ElementColors then ElementColors[elementType.value] else Fallback
  }

  /** Every listed Type gets its own table colour; white marks exactly the unlisted ones. */
  lemma CellColorFallbackOnlyWhenUnlisted(elementType: Option<string>)
    ensures CellColor(elementType) in ElementColors.Values || CellColor(elementType) == Fallback
    ensures elementType.Some? && elementType.value in ElementColors ==>
              CellColor(elementType) == ElementColors[elementType.value]
    ensures CellColor(elementType) == Fallback <==> elementType.None? || elementType.value !in ElementColors
  {
    if elementType.Some? && elementType.value in ElementColors {
      var t := elementType.value;
      assert t == "Alkali Metal" || t == "Alkaline Earth Metal" || t == "Transition Metal"
        || t == "Post-Transition Metal" || t == "Metalloid" || t == "Nonmetal" || t == "Halogen"
        || t == "Noble Gas" || t == "Lanthanide" || t == "Actinide" || t == "Unknown";
    }
  }
}
