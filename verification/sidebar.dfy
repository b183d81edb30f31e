/**
 * The sidebar filters. Up to five masks are applied one after the other to
 * a copy of the dataset; a control left at its default ("", nothing
 * selected, "All") adds no mask.
 */
module Sidebar {
  import opened Dataset
  import opened Text
  import opened Selection

  /** The "Filter by Metal Type" choices. */
  datatype MetalType = AnyType | Metal | Nonmetal | Metalloid

  /** The "Filter by Radioactivity" choices. */
  datatype Radioactivity = AnyRadioactivity | Radioactive | NonRadioactive

  /** The state of the five sidebar controls. */
  datatype Criteria = Criteria(
    name: string,
    groups: set<int>,
    periods: set<int>,
    metalType: MetalType,
    radioactivity: Radioactivity)

  /** The text of a metal-type choice, compared verbatim with `Type`. */
  function MetalLabel(m: MetalType): string {
    match m
    case AnyType => "All"
    case Metal => "Metal"
    case Nonmetal => "Nonmetal"
    case Metalloid => "Metalloid"
  }

  /** "yes" for Radioactive, "no" for Non-Radioactive. */
  function RadioactiveFlag(choice: Radioactivity): string {
    if choice == Radioactive then "yes" else "no"
  }

  function NameTests(c: Criteria): seq<Test> {
    if c.name != "" then [NameContains(c.name)] else []
  }

  function GroupTests(c: Criteria): seq<Test> {
    if c.groups != {} then [GroupIn(c.groups)] else []
  }

  function PeriodTests(c: Criteria): seq<Test> {
    if c.periods != {} then [PeriodIn(c.periods)] else []
  }

  function TypeTests(c: Criteria): seq<Test> {
    if c.metalType != AnyType then [TypeIs(MetalLabel(c.metalType))] else []
  }

  function RadioactivityTests(c: Criteria): seq<Test> {
    if c.radioactivity != AnyRadioactivity then [RadioactiveIs(RadioactiveFlag(c.radioactivity))] else []
  }

  /** The masks the controls switch on, in the order they are applied. */
  function ActiveTests(c: Criteria): seq<Test> {
    NameTests(c) + GroupTests(c) + PeriodTests(c) + TypeTests(c) + RadioactivityTests(c)
  }

  /** Whether a row survives the sidebar, written out control by control. */
  predicate Admits(c: Criteria, r: Element) {
    && (c.name == "" || (r.name.Some? && ContainsIgnoringCase(r.name.value, c.name)))
    && (c.groups == {} || (r.group.Some? && r.group.value in c.groups))
    && (c.periods == {} || (r.period.Some? && r.period.value in c.periods))
    && (c.metalType == AnyType || r.elementType == Some(MetalLabel(c.metalType)))
    && (c.radioactivity == AnyRadioactivity || r.radioactive == Some(RadioactiveFlag(c.radioactivity)))
  }

  lemma ActiveTestsMeanAdmits(c: Criteria, r: Element)
    ensures PassesAll(ActiveTests(c), r) <==> Admits(c, r)
  {
    var n, g, p, m, d := NameTests(c), GroupTests(c), PeriodTests(c), TypeTests(c), RadioactivityTests(c);
    PassesAllConcat(n + g + p + m, d, r);
    PassesAllConcat(n + g + p, m, r);
    PassesAllConcat(n + g, p, r);
    PassesAllConcat(n, g, r);
    assert PassesAll(n, r) <==> (c.name == "" || Holds(NameContains(c.name), r));
    assert PassesAll(g, r) <==> (c.groups == {} || Holds(GroupIn(c.groups), r));
    assert PassesAll(p, r) <==> (c.periods == {} || Holds(PeriodIn(c.periods), r));
    assert PassesAll(m, r) <==> (c.metalType == AnyType || Holds(TypeIs(MetalLabel(c.metalType)), r));
    assert PassesAll(d, r) <==> (c.radioactivity == AnyRadioactivity || Holds(RadioactiveIs(RadioactiveFlag(c.radioactivity)), r));
  }

  /** The view holds exactly the dataset rows the criteria admit. */
  lemma ViewIsAdmitted(df: seq<Element>, c: Criteria)
    ensures forall r :: r in Where(df, ActiveTests(c)) <==> r in df && Admits(c, r)
  {
    forall r ensures PassesAll(ActiveTests(c), r) <==> Admits(c, r) {
      ActiveTestsMeanAdmits(c, r);
    }
  }

  /**
   * `filtered_data`: the dataset copied, then narrowed by each active
   * control in turn. The result keeps exactly the rows every active control
   * admits, in dataset order.
   */
  method ApplyFilters(df: seq<Element>, c: Criteria) returns (view: seq<Element>)
    ensures view == Where(df, ActiveTests(c))
    ensures Subsequence(view, df)
    ensures forall r :: r in view <==> r in df && Admits(c, r)
  {
    view := df;
    WhereNothing(df);
    NarrowByOptional(df, [], NameTests(c));
    if c.name != "" {
      view := Keep(view, NameContains(c.name));
    }
    assert [] + NameTests(c) == NameTests(c);
    ghost var applied := NameTests(c);
    NarrowByOptional(df, applied, GroupTests(c));
    if c.groups != {} {
      view := Keep(view, GroupIn(c.groups));
    }
    applied := applied + GroupTests(c);
    NarrowByOptional(df, applied, PeriodTests(c));
    if c.periods != {} {
      view := Keep(view, PeriodIn(c.periods));
    }
    applied := applied + PeriodTests(c);
    NarrowByOptional(df, applied, TypeTests(c));
    if c.metalType != AnyType {
      view := Keep(view, TypeIs(MetalLabel(c.metalType)));
    }
    applied := applied + TypeTests(c);
    NarrowByOptional(df, applied, RadioactivityTests(c));
    if c.radioactivity != AnyRadioactivity {
      view := Keep(view, RadioactiveIs(RadioactiveFlag(c.radioactivity)));
    }
    applied := applied + RadioactivityTests(c);
    assert applied == ActiveTests(c);
    ViewIsAdmitted(df, c);
  }

  /** Every control at its default: the view is the whole dataset. */
  lemma DefaultsKeepEverything(df: seq<Element>)
    ensures Where(df, ActiveTests(Criteria("", {}, {}, AnyType, AnyRadioactivity))) == df
  {
    WhereNothing(df);
  }

  /** Re-applying the same criteria to the view changes nothing. */
  lemma FilteringTwiceIsFilteringOnce(df: seq<Element>, c: Criteria)
    ensures Where(Where(df, ActiveTests(c)), ActiveTests(c)) == Where(df, ActiveTests(c))
  {
    WhereIdempotent(df, ActiveTests(c));
  }

  /**
   * The masks may be applied in any order: putting the radioactivity mask
   * first, for one, gives the same view.
   */
  lemma FilterOrderIrrelevant(df: seq<Element>, c: Criteria)
    ensures var ts := ActiveTests(c);
            ts != [] ==> Where(df, ts) == Where(df, [ts[|ts| - 1]] + ts[..|ts| - 1])
  {
    var ts := ActiveTests(c);
    if ts != [] {
      var us := [ts[|ts| - 1]] + ts[..|ts| - 1];
      forall t ensures t in ts <==> t in us {
        assert ts == ts[..|ts| - 1] + [ts[|ts| - 1]];
      }
      WhereOrderIrrelevant(df, ts, us);
    }
  }

  /**
   * A row whose name is missing never survives a non-empty name query, and
   * one whose group (period) is missing never survives a non-empty group
   * (period) selection.
   */
  lemma AbsentValuesFailActiveFilters(df: seq<Element>, c: Criteria, r: Element)
    requires r in Where(df, ActiveTests(c))
    ensures c.name != "" ==> r.name.Some?
    ensures c.groups != {} ==> r.group.Some? && r.group.value in c.groups
    ensures c.periods != {} ==> r.period.Some? && r.period.value in c.periods
  {
    ActiveTestsMeanAdmits(c, r);
  }
}
