# Periodic table visualizer: the filter-and-derive pipeline

This project models, in Dafny, the data handling of a one-page Streamlit app
(`main.py`) that explores a table of chemical elements. The page logic below
the widgets works on a small table of element rows, and the model covers five
parts of it:

- **The sidebar filters.** Up to five optional masks are chained onto a copy
  of the dataset:
  - the element name contains the query, ignoring case;
  - the Group is among the chosen groups;
  - the Period is among the chosen periods;
  - the Type equals the chosen metal type;
  - the Radioactive flag is "yes" or "no".

  A control left at its default adds no mask. `ApplyFilters` reassigns the
  view one mask at a time. It is proved to keep exactly the dataset rows that
  every active control admits, in dataset order.
- **The periodic grid.** A 7 x 18 `array2` is filled by a loop over the rows.
  Each row is written at `(Period-1, Group-1)`, and the last write to a cell
  wins. Lanthanides (atomic numbers 57-71), actinides (89-103) and rows with
  a missing Group or Period are skipped. Python's negative subscripts wrap
  around; any other out-of-range subscript raises IndexError, which stops the
  page. The model also covers the two f-block strips and the cell colour
  table with its white fallback.
- **The table view.** The selected columns narrow the sidebar's view in turn:
  - a numeric column to an inclusive slider range;
  - a column with at most ten distinct values (counted on the table as it
    stands) to the values ticked in its picker;
  - any other column not at all.

  Next comes a case-insensitive search over the whole row's text. The rows
  are then projected onto the selected columns, in their order, and marked
  for the radioactive highlight. With no column selected, a warning is shown
  and there are no rows.
- **The radar tab.** Each selected element name is looked up as its first
  row. The present values of the selected properties are kept in order. An
  element with none adds no trace. The k-th trace gets Set1 palette colour
  k mod 9. A name that no row carries stops the tab, and so does a NaN name.
  The tab hands plotly every selected property as the trace's axes, even when
  some values were skipped. `RadarChart` builds exactly that trace
  (`AsWrittenTrace`, drawing with `Axes.AllSelected`). The corrected polygon
  (`Polygon`, `Axes.PresentOnly`) keeps only the present properties as axes.
  It is the intended half of the finding below. Every lemma about `Draw`
  holds for both kinds of axes.
- **The 3D scatter window and the detail lookup.** The scatter tab keeps the
  rows whose atomic number is in the slider's range. The detail tab looks up
  the first row with the chosen name. The picker also offers NaN, and a NaN
  pick matches no row.

Values are modelled as follows:
- A cell is a `Value`: a number, a text, or `Absent` for pandas' NaN.
- Missing names, groups, periods, types and flags are `Option`s.
- A row mask is a first-order `Test`.
- `Keep` (one mask) and `Where` (the AND of several masks) are the
  specification functions the methods are proved against.

A few details of `main.py` that the model keeps as they are:
- The grid, the 3D scatter window, the radar tab and the detail lookup read
  the whole dataset `df`, not the sidebar's view (main.py:277, 496, 573, 696).
- Radar and detail look elements up by name, not by atomic number.
- A Group above 18 or a Period above 7 raises IndexError
  (`BuildGrid` reports `completed == false`). Group or Period 0
  writes into the last column or row (`ZeroWrapsToLast`).
- The f-block strips keep dataset order. They are ascending when the dataset
  is (`StripsAscending`).
- The scatter window does not drop rows with absent plotted values.

## Model

| member | source | states |
|---|---|---|
| Text.Lower | main.py:354 | lower-casing keeps the length and lowers each character in place |
| Text.LowerIdempotent | main.py:354 | lowering twice is lowering once |
| Text.CaseBlind | main.py:43 | a case-ignoring match is unchanged by lowering either the text or the query |
| Text.EmptyQueryMatches | main.py:43 | the empty query occurs in every text |
| Selection.Keep | main.py:43 | one mask keeps exactly the rows that pass its test, as an order-preserving subsequence, never more rows |
| Selection.Where | main.py:41-51 | a chain of masks keeps exactly the rows passing every test (AND), as an order-preserving subsequence |
| Selection.WhereNothing | main.py:41 | with no active mask the copy is the whole dataset |
| Selection.KeepNarrows | main.py:42-51 | applying one more mask to a selection equals selecting with that test added |
| Selection.NarrowByOptional | main.py:42-51 | an `if control:` step either leaves the selection or narrows it by exactly one test |
| Selection.WhereOrderIrrelevant | main.py:41-51 | any two lists holding the same tests select the same rows |
| Selection.WhereIdempotent | main.py:41-51 | filtering the filtered view again changes nothing |
| Selection.KeepAscending | main.py:165-166 | a mask keeps a list sorted by atomic number sorted |
| Sidebar.ActiveTestsMeanAdmits | main.py:42-51 | a row passes the active masks iff each control is at its default or the row meets it (name contains the query ignoring case, group/period in the set, Type equal, Radioactive "yes"/"no") |
| Sidebar.ViewIsAdmitted | main.py:41-51 | the filtered view holds exactly the dataset rows the five controls admit |
| Sidebar.ApplyFilters | main.py:41-51 | the step-by-step reassignment of `filtered_data` yields the AND selection, an order-preserving subsequence of the dataset holding exactly the admitted rows |
| Sidebar.DefaultsKeepEverything | main.py:41-51 | with every control at its default the view is the dataset |
| Sidebar.FilteringTwiceIsFilteringOnce | main.py:41-51 | the filters are idempotent |
| Sidebar.FilterOrderIrrelevant | main.py:41-51 | applying the last mask first gives the same view |
| Sidebar.AbsentValuesFailActiveFilters | main.py:42-47 | a row with no name never survives a name query; one with no group (period) never survives a group (period) choice |
| PeriodicGrid.Slot | main.py:178 | a valid Python subscript names a slot inside the list: itself when non-negative, counted from the end (i + len) when negative |
| PeriodicGrid.PlacementOf | main.py:170-178 | f-block rows and rows missing Group or Period are skipped; in-range rows go to (Period-1, Group-1); every placement is inside the 7 x 18 grid; IndexError exactly for a non-f-block row with both values whose Period-1 or Group-1 is no valid subscript |
| PeriodicGrid.ZeroWrapsToLast | main.py:174-178 | a Group (Period) of 0 is placed, in the last column (row) |
| PeriodicGrid.BuildGrid | main.py:162-180 | returns a fresh 7 x 18 grid; completes iff no row's subscript raises IndexError, and then every cell holds the last row aimed at it |
| PeriodicGrid.OccupantIsLastWriter | main.py:169-178 | a cell's occupant is a row aimed at it and no later row is aimed at it |
| PeriodicGrid.LastWriterIsOccupant | main.py:169-178 | the last row aimed at a cell is what the cell holds |
| PeriodicGrid.EmptyCellIffUntargeted | main.py:162-178 | a cell stays empty iff no row is aimed at it |
| PeriodicGrid.GridHoldsNoFBlock | main.py:170-177 | no lanthanide, actinide or row missing Group or Period occupies a cell |
| PeriodicGrid.SkippedRowChangesNothing | main.py:170-180 | a skipped row changes no cell |
| PeriodicGrid.Lanthanides | main.py:165 | the lanthanide strip is exactly the rows numbered 57-71, in dataset order |
| PeriodicGrid.Actinides | main.py:166 | the actinide strip is exactly the rows numbered 89-103, in dataset order |
| PeriodicGrid.StripsAscending | main.py:165-166 | on a dataset sorted by atomic number, both strips are sorted |
| PeriodicGrid.GridAndStripsDisjoint | main.py:165-172 | no grid occupant is in either strip |
| PeriodicGrid.CellColor | main.py:192 | the colour lookup by Type; its contract is stated by `CellColorFallbackOnlyWhenUnlisted` |
| PeriodicGrid.CellColorFallbackOnlyWhenUnlisted | main.py:192 | a cell's colour comes from the eleven-entry Type table of main.py:66-78, and is the white fallback exactly when the Type is missing or unlisted |
| TableView.NarrowByColumn | main.py:329-349 | one column's pass keeps exactly the rows its slider (numeric column) or picker (at most ten distinct values) admits, and every row for any other column, in order |
| TableView.ColumnFilter | main.py:328-349 | the column loop leaves an order-preserving subsequence of the view; which rows it keeps is stated by `ColumnFilterSound` and `ColumnFilterComplete` |
| TableView.Highlighted | main.py:362-365 | whether a row is tinted: Radioactive is a displayed column holding "yes"; its use is stated by `Project` |
| TableView.SearchRows | main.py:352-355 | keeps exactly the rows whose text contains the query ignoring case, in order |
| TableView.ProjectRow | main.py:359 | a displayed row has one cell per selected column, each the row's value in that column |
| TableView.Project | main.py:359-365 | each displayed row is its table row projected onto the selected columns, highlighted iff Radioactive is selected and "yes" |
| TableView.FilterColumns | main.py:324-349 | the per-column reassignment of `filtered_table` equals the column-by-column narrowing and is an order-preserving subsequence of the view |
| TableView.ShowTable | main.py:310-365 | no column selected gives the warning state and no rows; otherwise the column-filtered, searched rows projected onto the columns in order |
| TableView.ColumnFilterSound | main.py:328-349 | every kept row is from the view, lies in each selected numeric column's inclusive range, and is among the ticked values of each selected low-cardinality column |
| TableView.ColumnFilterComplete | main.py:328-349 | a view row meeting every selected column's widget is kept |
| TableView.DistinctShrinks | main.py:341 | narrowing the table never raises a column's count of distinct values |
| TableView.ShownRowsMatch | main.py:324-359 | every displayed row projects a view row that meets every numeric range and contains the search text |
| Lookup.FirstNamed | main.py:573 | the `iloc[0]` lookup; its contract is stated by `FirstNamedFinds` and `FirstNamedIsFirst` |
| Lookup.FirstNamedFinds | main.py:573 | the lookup fails iff the pick is NaN or no row has the name; otherwise it finds a dataset row carrying the name |
| Lookup.FirstNamedIsFirst | main.py:573 | the row found is the first one carrying the name: no earlier row does |
| Lookup.ElementDetail | main.py:696 | NotFound (the IndexError) iff the pick is NaN or no row has the name; otherwise a dataset row carrying it |
| Lookup.OfferedNameIsFound | main.py:689-696 | an entry the picker offers is found iff it is not NaN, and then at or before the row that offered it |
| Scatter.AtomicWindow | main.py:496-497 | the scatter window is exactly the rows whose atomic number is in the inclusive range, in dataset order |
| Scatter.AtomicWindowAscending | main.py:496-497 | on a dataset sorted by atomic number, the window is sorted |
| Radar.PresentValues | main.py:576 | the kept values are non-absent and at most one per selected property |
| Radar.NoValuesIffAllAbsent | main.py:576-578 | an element gets no values, hence no trace, iff every selected property is absent for it |
| Radar.PresentColumnsMatchValues | main.py:576 | the properties the kept values belong to are exactly the selected properties present for the row, in selection order, one per value, each value being that property's cell |
| Radar.Caption | main.py:590 | the trace name `Element (Symbol)`; it has no contract of its own and `AxesOnlyChangeTheta` states that both kinds of axes use it alike |
| Radar.AsWrittenTrace | main.py:586-588 | the trace as the tab builds it; its shape is stated by `MisalignedVertexExample` and `AxesOnlyChangeTheta` |
| Radar.Vertices | main.py:583-588 | the points drawn pair axes and values index by index, up to the shorter list |
| Radar.PolygonVerticesAligned | main.py:576-588 | the corrected trace has exactly one point per present selected property, in selection order, none for an absent one, each carrying its own property's value |
| Radar.AsWrittenAgreesWhenComplete | main.py:576-588 | when no selected property is absent, the trace as written draws the same points as the corrected one |
| Radar.MisalignedVertexExample | main.py:583-588 | helium on [ElectronAffinity, BoilingPoint]: the trace as written puts the boiling point on the electron-affinity axis |
| Radar.Extend | main.py:572-586 | one pass of the loop; its effect is stated by the `Draw` lemmas below |
| Radar.Draw | main.py:572-580 | the name loop ends in a chart or in a missing-name stop, never in the warning state |
| Radar.Plot | main.py:568 | the warning state exactly when no element or no property is selected |
| Radar.DrawStopsAtMissing | main.py:573 | once a name is missing, later names change nothing |
| Radar.RadarChart | main.py:568-602 | the radar loop equals `Plot` with every selected property as axes: the warning when no element or no property is chosen; otherwise one coloured trace per found element with a present value, or the missing-name stop |
| Radar.TraceColorsCycle | main.py:580 | the k-th trace gets palette colour k mod 9 |
| Radar.AtMostOneTracePerName | main.py:572-586 | there are no more traces than selected names |
| Radar.TraceComesFromName | main.py:572-588 | the k-th trace is the trace (as written: all selected properties as axes), coloured k, of the first row of a selected name that has a present value |
| Radar.ContributingPicks | main.py:572-578 | the picks that draw a trace are exactly the selected picks whose first row has a present value, in selection order, never more than the picks |
| Radar.DrawIsContributing | main.py:572-588 | a chart holds exactly one trace per contributing pick, in selection order, the k-th being that pick's trace coloured k |
| Radar.AxesOnlyChangeTheta | main.py:586-588 | the tab as written and the corrected one stop on the same name and draw the same traces except for their axes, which as written are all the selected properties |
| Radar.MissingIffUnknown | main.py:573 | the tab stops iff some selected name is NaN or carried by no row |
| Radar.MissingNameIsFirstUnknown | main.py:573 | the stop names the first selected name no row carries |

## Left out

- Loading the CSV with `pd.read_csv` and the missing-file check (main.py:13-17) are file I/O. The dataset is a parameter.
- CSV export with `to_csv` (main.py:375) is left out. Its quoting and encoding belong to pandas.
- The trends tab (main.py:396-468) is not modelled. It hands the full dataset to plotly, and its smoothing is scipy's floating-point Gaussian filter.
- Plotly figure styling is not modelled. This covers log axes, colour scales, the bubble-size multiplication and the layout options (main.py:510-543, 589-648).
- The widgets, page layout, HTML cards and static texts are not modelled. The element-level details under the radar chart (main.py:654-669) are left out. Their lookup is `Lookup.FirstNamed`.
- Whether a column is numeric is given as the set `numericHeaders`. It is not derived from pandas dtypes.
- `row.to_string()` is the parameter `render` of the search.
- `Text.Lower` lowers ASCII letters only. Python's `str.lower` is Unicode-aware.
- `Text.Contains` is a literal substring match. `str.contains` treats the query as a regular expression, which the model does not capture.
- `int()` of a fractional or textual Group or Period (main.py:174-175) is not modelled. Group and Period are whole numbers or absent, so the ValueError/KeyError branch is never taken.
- A table-view column with no entry in `ranges` (`picks`) stands for its widget at the default. The default is the full [min, max] slider (all values ticked), which is the same as "value present".
- A slider over an empty or single-valued column is not modelled, and neither are the errors Streamlit may raise for one.
- The 3D scatter tab's axis, size and colour choices are not modelled. Only its atomic-number window (main.py:496-497) is.
- Radar.Draw: its own contract only rules out the warning state. What it computes is stated by `DrawIsContributing`, `TraceColorsCycle`, `AtMostOneTracePerName`, `TraceComesFromName`, `AxesOnlyChangeTheta`, `MissingIffUnknown` and `MissingNameIsFirstUnknown`.
- The f-block strip tiles (main.py:215-260) are not modelled beyond their rows. Each tile is filled with the fixed colour `element_colors['Lanthanide']` or `element_colors['Actinide']`, whatever the row's Type.
- Hover texts (main.py:583) are not modelled as strings. Their pairing of properties with values is the same as the trace's, so `Radar.Vertices` covers it.

## Findings

| source | as written | input that shows it | evidently intended | confidence | as-written member | corrected member |
|---|---|---|---|---|---|---|
| main.py:576-588 | the trace gets `theta=selected_properties` (every selected property) but `r=values` (only the present ones), and the hover text zips the same two lists, so each kept value is drawn and labelled on the axis as many places before its own as there are absent properties selected before it | Helium with properties [ElectronAffinity, BoilingPoint], ElectronAffinity absent: the 4.22 boiling point is drawn and labelled as the electron affinity | theta lists only the properties whose values were kept, so each value sits on its own axis | not executed; high for the hover text, medium for the polygon (plotly pairs by index) | Radar.MisalignedVertexExample | Radar.PolygonVerticesAligned |
