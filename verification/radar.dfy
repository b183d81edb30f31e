/**
 * The "Radar Charts" tab: one trace per selected element name, holding the
 * element's non-NaN values of the selected properties; an element lacking
 * them all gets no trace. Traces are coloured from the Set1 palette by how
 * many were drawn before them. The tab hands plotly every selected property
 * as the trace's axes even when values were skipped (`Axes.AllSelected`);
 * `Axes.PresentOnly` is the corrected polygon that keeps each value on its
 * own property's axis.
 */
module Radar {
  import opened Dataset
  import opened Selection
  import opened Lookup

  /** Plotly's qualitative Set1 palette. */
  const Set1: seq<string> := [
    "rgb(228,26,28)", "rgb(55,126,184)", "rgb(77,175,74)",
    "rgb(152,78,163)", "rgb(255,127,0)", "rgb(255,255,51)",
    "rgb(166,86,40)", "rgb(247,129,191)", "rgb(153,153,153)"
  ]

  /** The colour of the k-th trace drawn: the palette entry at k mod its length. */
  function Color(k: nat): string {
    Set1[k % |Set1|]
  }

  /** One `Scatterpolar` trace: `r[j]` is drawn on the axis `theta[j]`. */
  datatype Trace = Trace(name: string, theta: seq<Column>, r: seq<Value>, color: string)

  datatype Outcome =
    | NothingSelected              // the "select at least one element and one property" warning
    | Chart(traces: seq<Trace>)
    | ElementMissing(pick: Option<string>) // `iloc[0]` on no row raises IndexError

  /** The list comprehension: the selected properties' non-NaN cells, in selection order. */
  function PresentValues(row: Element, props: seq<Column>): (values: seq<Value>)
    ensures |values| <= |props|
    ensures forall v :: v in values ==> !v.Absent?
  {
    if props == [] then []
    else if Cell(row, props[0]).Absent? then PresentValues(row, props[1..])
    else [Cell(row, props[0])] + PresentValues(row, props[1..])
  }

  /** An element gets no polygon exactly when every selected property is absent for it. */
  lemma {:induction false} NoValuesIffAllAbsent(row: Element, props: seq<Column>)
    ensures PresentValues(row, props) == [] <==> forall p :: p in props ==> Cell(row, p).Absent?
  {
    if props != [] {
      NoValuesIffAllAbsent(row, props[1..]);
      assert forall p :: p in props ==> p == props[0] || p in props[1..];
    }
  }

  /** The properties those values belong to. */
  function PresentColumns(row: Element, props: seq<Column>): seq<Column>
  {
    if props == [] then []
    else if Cell(row, props[0]).Absent? then PresentColumns(row, props[1..])
    else [props[0]] + PresentColumns(row, props[1..])
  }

  /**
   * The present properties are exactly the selected properties the row has
   * a cell for, kept in selection order, one per kept value, and each kept
   * value is that property's cell.
   */
  lemma {:induction false} PresentColumnsMatchValues(row: Element, props: seq<Column>)
    ensures var cols, values := PresentColumns(row, props), PresentValues(row, props);
            && |cols| == |values|
            && (forall j :: 0 <= j < |cols| ==> values[j] == Cell(row, cols[j]))
            && (forall p :: p in cols <==> p in props && !Cell(row, p).Absent?)
            && Subsequence(cols, props)
  {
    if props != [] {
      PresentColumnsMatchValues(row, props[1..]);
      var rest := PresentColumns(row, props[1..]);
      assert forall p :: p in props <==> p == props[0] || p in props[1..];
      if !Cell(row, props[0]).Absent? {
        var cols, values := PresentColumns(row, props), PresentValues(row, props);
        assert cols[1..] == rest;
        forall j | 0 <= j < |cols| ensures values[j] == Cell(row, cols[j]) {
          if j > 0 {
            assert cols[j] == rest[j - 1];
            assert values[j] == PresentValues(row, props[1..])[j - 1];
          }
        }
      }
    }
  }

  /** The trace's name: `f"{Element} ({Symbol})"`. */
  function Caption(row: Element): string {
    (if row.name.Some? then row.name.value else "nan") + " (" + row.symbol + ")"
  }

  /**
   * Which axes a trace's values are drawn on: every selected property, as
   * the tab passes `theta=selected_properties`, or only the present ones, so
   * that each value lands on its own property's axis.
   */
  datatype Axes = AllSelected | PresentOnly

  /** The trace as the tab builds it: all selected properties as axes, only the present values. */
  function AsWrittenTrace(row: Element, props: seq<Column>, k: nat): Trace {
    Trace(Caption(row), props, PresentValues(row, props), Color(k))
  }

  /** The polygon of the k-th drawn element, each value on its own property's axis. */
  function Polygon(row: Element, props: seq<Column>, k: nat): Trace {
    Trace(Caption(row), PresentColumns(row, props), PresentValues(row, props), Color(k))
  }

  /** The k-th trace for a row, on the given axes. */
  function MakeTrace(row: Element, props: seq<Column>, k: nat, axes: Axes): Trace {
    match axes
    case AllSelected => AsWrittenTrace(row, props, k)
    case PresentOnly => Polygon(row, props, k)
  }

  /** The (axis, value) points a trace draws: the two lists paired up to the shorter one. */
  function Vertices(theta: seq<Column>, r: seq<Value>): (points: seq<(Column, Value)>)
    ensures |points| == if |theta| <= |r| then |theta| else |r|
    ensures forall j :: 0 <= j < |points| ==> points[j] == (theta[j], r[j])
  {
    if theta == [] || r == [] then [] else [(theta[0], r[0])] + Vertices(theta[1..], r[1..])
  }

  /**
   * The corrected polygon has one point for every present selected property,
   * in selection order, and none for an absent one; each point carries its
   * own property's value.
   */
  lemma PolygonVerticesAligned(row: Element, props: seq<Column>, k: nat)
    ensures var t := Polygon(row, props, k);
            var points := Vertices(t.theta, t.r);
            && |points| == |t.theta| == |PresentValues(row, props)| <= |props|
            && (forall j :: 0 <= j < |points| ==>
                  points[j] == (t.theta[j], Cell(row, t.theta[j])) && !points[j].1.Absent?)
            && (forall p :: p in t.theta <==> p in props && !Cell(row, p).Absent?)
            && Subsequence(t.theta, props)
  {
    var t := Polygon(row, props, k);
    var points := Vertices(t.theta, t.r);
    PresentColumnsMatchValues(row, props);
    forall j | 0 <= j < |points| ensures !points[j].1.Absent? {
      assert t.r[j] in t.r;
    }
  }

  /** With no property missing, the trace as written draws the same points as the polygon. */
  lemma {:induction false} AsWrittenAgreesWhenComplete(row: Element, props: seq<Column>, k: nat)
    requires forall p :: p in props ==> !Cell(row, p).Absent?
    ensures Vertices(AsWrittenTrace(row, props, k).theta, AsWrittenTrace(row, props, k).r)
         == Vertices(Polygon(row, props, k).theta, Polygon(row, props, k).r)
  {
    PresentColumnsAllPresent(row, props);
  }

  lemma {:induction false} PresentColumnsAllPresent(row: Element, props: seq<Column>)
    requires forall p :: p in props ==> !Cell(row, p).Absent?
    ensures PresentColumns(row, props) == props
  {
    if props != [] {
      assert props[0] in props;
      assert forall p :: p in props[1..] ==> p in props;
      PresentColumnsAllPresent(row, props[1..]);
    }
  }

  /**
   * Helium has no electron affinity. Compared on [ElectronAffinity,
   * BoilingPoint], the trace as written puts its boiling point on the
   * electron-affinity axis.
   */
  lemma MisalignedVertexExample()
    ensures var helium := Element(2, Some("Helium"), "He", Some(18), Some(1), Some("Noble Gas"), None,
                                  map["BoilingPoint" := Num(4.22)]);
            var props := [Property("ElectronAffinity"), Property("BoilingPoint")];
            var asWritten := AsWrittenTrace(helium, props, 0);
            var intended := Polygon(helium, props, 0);
            && Vertices(asWritten.theta, asWritten.r) == [(Property("ElectronAffinity"), Num(4.22))]
            && Cell(helium, Property("ElectronAffinity")) == Absent
            && Vertices(intended.theta, intended.r) == [(Property("BoilingPoint"), Num(4.22))]
  {
    var helium := Element(2, Some("Helium"), "He", Some(18), Some(1), Some("Noble Gas"), None,
                          map["BoilingPoint" := Num(4.22)]);
    var props := [Property("ElectronAffinity"), Property("BoilingPoint")];
    assert Cell(helium, props[0]) == Absent;
    assert Cell(helium, props[1]) == Num(4.22);
    assert props[1..][1..] == [];
    assert PresentValues(helium, props) == [Num(4.22)];
    assert PresentColumns(helium, props) == [Property("BoilingPoint")];
  }

  /**
   * One pass of the name loop on the outcome so far: the pick's first row
   * adds its trace, coloured by the number of traces already drawn, when it
   * has a present property; a pick no row carries stops the tab.
   */
  function Extend(o: Outcome, found: Option<Element>, pick: Option<string>, props: seq<Column>, axes: Axes): Outcome {
    if !o.Chart? then o
    else if found.None? then ElementMissing(pick)
    else if PresentValues(found.value, props) == [] then o
    else Chart(o.traces + [MakeTrace(found.value, props, |o.traces|, axes)])
  }

  /** The traces for the picks, in order: each pick extends the outcome of those before it. */
  function Draw(df: seq<Element>, names: seq<Option<string>>, props: seq<Column>, axes: Axes): (o: Outcome)
    ensures o.Chart? || o.ElementMissing?
    decreases |names|
  {
    if names == [] then Chart([])
    else
      var n := |names| - 1;
      Extend(Draw(df, names[..n], props, axes), FirstNamed(df, names[n]), names[n], props, axes)
  }

  /** The whole tab: nothing is drawn unless an element and a property are selected. */
  function Plot(df: seq<Element>, names: seq<Option<string>>, props: seq<Column>, axes: Axes): (o: Outcome)
    ensures o.NothingSelected? <==> names == [] || props == []
  {
    if names == [] || props == [] then NothingSelected else Draw(df, names, props, axes)
  }

  /** Once a pick is missing, later picks change nothing. */
  lemma {:induction false} DrawStopsAtMissing(df: seq<Element>, names: seq<Option<string>>, m: nat, props: seq<Column>, axes: Axes)
    requires m <= |names| && Draw(df, names[..m], props, axes).ElementMissing?
    ensures Draw(df, names, props, axes) == Draw(df, names[..m], props, axes)
    decreases |names|
  {
    if m < |names| {
      var n := |names| - 1;
      assert names[..n][..m] == names[..m];
      DrawStopsAtMissing(df, names[..n], m, props, axes);
    } else {
      assert names[..m] == names;
    }
  }

  /**
   * The radar loop: look each pick up, keep its present values, and add a
   * trace over all the selected properties only when there are some,
   * coloured by the traces so far.
   */
  method RadarChart(df: seq<Element>, names: seq<Option<string>>, props: seq<Column>) returns (out: Outcome)
    ensures out == Plot(df, names, props, AllSelected)
  {
    if |names| == 0 || |props| == 0 {
      return NothingSelected;
    }
    var traces: seq<Trace> := [];
    var i := 0;
    while i < |names|
      invariant 0 <= i <= |names|
      invariant Draw(df, names[..i], props, AllSelected) == Chart(traces)
    {
      assert names[..i + 1][..i] == names[..i];
      var found := FirstNamed(df, names[i]);
      if found.None? {
        DrawStopsAtMissing(df, names, i + 1, props, AllSelected);
        return ElementMissing(names[i]);
      }
      var row := found.value;
      var values := PresentValues(row, props);
      if |values| > 0 {
        var color := Color(|traces|);
        traces := traces + [Trace(Caption(row), props, values, color)];
      }
      i := i + 1;
    }
    assert names[..i] == names;
    return Chart(traces);
  }

  /** The k-th trace drawn gets palette colour k mod 9, whatever element it shows. */
  lemma {:induction false} TraceColorsCycle(df: seq<Element>, names: seq<Option<string>>, props: seq<Column>, axes: Axes)
    requires Draw(df, names, props, axes).Chart?
    ensures var ts := Draw(df, names, props, axes).traces;
            forall k :: 0 <= k < |ts| ==> ts[k].color == Color(k)
    decreases |names|
  {
    if names != [] {
      var n := |names| - 1;
      var prev := Draw(df, names[..n], props, axes);
      var found := FirstNamed(df, names[n]);
      assert Draw(df, names, props, axes) == Extend(prev, found, names[n], props, axes);
      assert prev.Chart?;
      TraceColorsCycle(df, names[..n], props, axes);
      var ts := Draw(df, names, props, axes).traces;
      if ts != prev.traces {
        var t := MakeTrace(found.value, props, |prev.traces|, axes);
        assert ts == prev.traces + [t];
        assert t.color == Color(|prev.traces|);
        forall k | 0 <= k < |ts| ensures ts[k].color == Color(k) {
          if k < |prev.traces| {
            assert ts[k] == prev.traces[k];
          }
        }
      }
    }
  }

  /** Whether a pick draws a trace: some row carries it and its first row has a present property. */
  predicate Contributes(df: seq<Element>, pick: Option<string>, props: seq<Column>) {
    FirstNamed(df, pick).Some? && PresentValues(FirstNamed(df, pick).value, props) != []
  }

  /** There are never more traces than selected names. */
  lemma {:induction false} AtMostOneTracePerName(df: seq<Element>, names: seq<Option<string>>, props: seq<Column>, axes: Axes)
    requires Draw(df, names, props, axes).Chart?
    ensures |Draw(df, names, props, axes).traces| <= |names|
    decreases |names|
  {
    if names != [] {
      var n := |names| - 1;
      var prev := Draw(df, names[..n], props, axes);
      assert Draw(df, names, props, axes) == Extend(prev, FirstNamed(df, names[n]), names[n], props, axes);
      AtMostOneTracePerName(df, names[..n], props, axes);
    }
  }

  /** The selected picks that draw a trace, in selection order. */
  function ContributingPicks(df: seq<Element>, names: seq<Option<string>>, props: seq<Column>): (cs: seq<Option<string>>)
    ensures |cs| <= |names|
    ensures forall p :: p in cs <==> p in names && Contributes(df, p, props)
    decreases |names|
  {
    if names == [] then []
    else
      var n := |names| - 1;
      assert forall p :: p in names <==> p in names[..n] || p == names[n];
      ContributingPicks(df, names[..n], props) + (if Contributes(df, names[n], props) then [names[n]] else [])
  }

  /** `ts` is the traces of the picks `cs`: the k-th is `cs[k]`'s trace coloured k, from a row with a present value. */
  predicate TracesOf(df: seq<Element>, cs: seq<Option<string>>, ts: seq<Trace>, props: seq<Column>, axes: Axes) {
    && |ts| == |cs|
    && forall k :: 0 <= k < |ts| ==>
         Contributes(df, cs[k], props) && ts[k] == MakeTrace(FirstNamed(df, cs[k]).value, props, k, axes)
  }

  /** Drawing one more contributing pick appends its trace, coloured by the count so far. */
  lemma TracesOfAppend(df: seq<Element>, cs: seq<Option<string>>, ts: seq<Trace>, c: Option<string>, props: seq<Column>, axes: Axes)
    requires TracesOf(df, cs, ts, props, axes) && Contributes(df, c, props)
    ensures TracesOf(df, cs + [c], ts + [MakeTrace(FirstNamed(df, c).value, props, |ts|, axes)], props, axes)
  {
  }

  /**
   * A chart holds one trace per contributing pick, in selection order: the
   * k-th trace is that pick's trace coloured k, and no such pick is skipped.
   */
  lemma {:induction false} DrawIsContributing(df: seq<Element>, names: seq<Option<string>>, props: seq<Column>, axes: Axes)
    requires Draw(df, names, props, axes).Chart?
    ensures TracesOf(df, ContributingPicks(df, names, props), Draw(df, names, props, axes).traces, props, axes)
    decreases |names|
  {
    if names != [] {
      var n := |names| - 1;
      var prev := Draw(df, names[..n], props, axes);
      var found := FirstNamed(df, names[n]);
      assert Draw(df, names, props, axes) == Extend(prev, found, names[n], props, axes);
      assert prev.Chart? && found.Some?;
      DrawIsContributing(df, names[..n], props, axes);
      if Contributes(df, names[n], props) {
        TracesOfAppend(df, ContributingPicks(df, names[..n], props), prev.traces, names[n], props, axes);
      }
    }
  }

  /**
   * The k-th trace is the trace, coloured k, of the first row of some
   * selected pick, and that row has a present property.
   */
  lemma {:induction false} TraceComesFromName(df: seq<Element>, names: seq<Option<string>>, props: seq<Column>, axes: Axes, k: nat)
    requires Draw(df, names, props, axes).Chart? && k < |Draw(df, names, props, axes).traces|
    ensures exists i :: 0 <= i < |names| && Contributes(df, names[i], props)
                        && Draw(df, names, props, axes).traces[k] == MakeTrace(FirstNamed(df, names[i]).value, props, k, axes)
  {
    DrawIsContributing(df, names, props, axes);
    var cs := ContributingPicks(df, names, props);
    assert cs[k] in cs;
    var i :| 0 <= i < |names| && names[i] == cs[k];
  }

  /**
   * The tab as written and the corrected one stop on the same pick and draw
   * the same traces, names, values and colours alike; the only difference is
   * that the tab as written puts every trace on all the selected properties.
   */
  lemma {:induction false} AxesOnlyChangeTheta(df: seq<Element>, names: seq<Option<string>>, props: seq<Column>)
    ensures var a, b := Draw(df, names, props, AllSelected), Draw(df, names, props, PresentOnly);
            && (a.ElementMissing? <==> b.ElementMissing?)
            && (a.ElementMissing? ==> a == b)
            && (a.Chart? ==> |a.traces| == |b.traces|
                             && forall k :: 0 <= k < |a.traces| ==> a.traces[k] == b.traces[k].(theta := props))
    decreases |names|
  {
    if names != [] {
      var n := |names| - 1;
      var a, b := Draw(df, names, props, AllSelected), Draw(df, names, props, PresentOnly);
      var pa, pb := Draw(df, names[..n], props, AllSelected), Draw(df, names[..n], props, PresentOnly);
      var found := FirstNamed(df, names[n]);
      assert a == Extend(pa, found, names[n], props, AllSelected);
      assert b == Extend(pb, found, names[n], props, PresentOnly);
      AxesOnlyChangeTheta(df, names[..n], props);
      if pa.Chart? && found.Some? && PresentValues(found.value, props) != [] {
        var k0 := |pa.traces|;
        assert a.traces == pa.traces + [AsWrittenTrace(found.value, props, k0)];
        assert b.traces == pb.traces + [Polygon(found.value, props, k0)];
        forall k | 0 <= k < |a.traces| ensures a.traces[k] == b.traces[k].(theta := props) {
          if k < k0 {
            assert a.traces[k] == pa.traces[k] && b.traces[k] == pb.traces[k];
          }
        }
      }
    }
  }

  /** Whether every pick is carried by some row. */
  predicate AllKnown(df: seq<Element>, names: seq<Option<string>>) {
    forall j :: 0 <= j < |names| ==> FirstNamed(df, names[j]).Some?
  }

  /** The tab fails exactly when some pick is NaN or carried by no row. */
  lemma {:induction false} MissingIffUnknown(df: seq<Element>, names: seq<Option<string>>, props: seq<Column>, axes: Axes)
    ensures Draw(df, names, props, axes).ElementMissing? <==> !AllKnown(df, names)
    decreases |names|
  {
    if names != [] {
      var n := |names| - 1;
      var front := names[..n];
      var prev := Draw(df, front, props, axes);
      var found := FirstNamed(df, names[n]);
      assert Draw(df, names, props, axes) == Extend(prev, found, names[n], props, axes);
      MissingIffUnknown(df, front, props, axes);
      if AllKnown(df, front) && FirstNamed(df, names[n]).Some? {
        forall j | 0 <= j < |names| ensures FirstNamed(df, names[j]).Some? {
          if j < n { assert names[j] == front[j]; }
        }
      } else if !AllKnown(df, front) {
        var j :| 0 <= j < n && FirstNamed(df, front[j]).None?;
        assert names[j] == front[j];
      }
    }
  }

  /** The pick it reports is the first one no row carries. */
  lemma {:induction false} MissingNameIsFirstUnknown(df: seq<Element>, names: seq<Option<string>>, props: seq<Column>, axes: Axes)
    requires Draw(df, names, props, axes).ElementMissing?
    ensures exists i :: 0 <= i < |names| && names[i] == Draw(df, names, props, axes).pick
                        && FirstNamed(df, names[i]).None? && AllKnown(df, names[..i])
    decreases |names|
  {
    var n := |names| - 1;
    var front := names[..n];
    var prev := Draw(df, front, props, axes);
    assert Draw(df, names, props, axes) == Extend(prev, FirstNamed(df, names[n]), names[n], props, axes);
    if prev.ElementMissing? {
      MissingNameIsFirstUnknown(df, front, props, axes);
      var i :| 0 <= i < |front| && front[i] == prev.pick && FirstNamed(df, front[i]).None? && AllKnown(df, front[..i]);
      assert names[i] == front[i] && names[..i] == front[..i];
    } else {
      MissingIffUnknown(df, front, props, axes);
      assert names[..n] == front;
    }
  }
}
