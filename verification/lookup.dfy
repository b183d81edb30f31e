/**
 * Picking a row out of the full dataset by element name: the first row
 * carrying the picked name, as the radar and detail tabs look it up.
 */
module Lookup {
  import opened Dataset

  /**
   * One row of `df["Element"] == pick`: a name the user picked from
   * `df["Element"].unique()`, which offers NaN (None) too. Comparing with
   * NaN is False for every row, and a NaN name equals no string.
   */
  predicate Named(r: Element, pick: Option<string>)
  {
    pick.Some? && r.name == pick
  }

  /**
   * `df[df["Element"] == pick].iloc[0]`: the first row carrying the picked
   * name, or None where `iloc[0]` raises IndexError.
   */
  function FirstNamed(rows: seq<Element>, pick: Option<string>): Option<Element>
  {
    if rows == [] then None
    else if Named(rows[0], pick) then Some(rows[0])
    else FirstNamed(rows[1..], pick)
  }

  /**
   * The lookup fails exactly when the pick is NaN or no row carries it,
   * and otherwise finds a row that does.
   */
  lemma {:induction false} FirstNamedFinds(rows: seq<Element>, pick: Option<string>)
    ensures FirstNamed(rows, pick).None? <==> pick.None? || forall r :: r in rows ==> r.name != pick
    ensures FirstNamed(rows, pick).Some? ==>
      pick.Some? && FirstNamed(rows, pick).value in rows && FirstNamed(rows, pick).value.name == pick
  {
    if rows != [] && !Named(rows[0], pick) {
      FirstNamedFinds(rows[1..], pick);
      assert forall r :: r in rows ==> r == rows[0] || r in rows[1..];
    }
  }

  /** The row found is the first one carrying the name: no earlier row does. */
  lemma {:induction false} FirstNamedIsFirst(rows: seq<Element>, pick: Option<string>)
    requires FirstNamed(rows, pick).Some?
    ensures exists i :: 0 <= i < |rows| && rows[i] == FirstNamed(rows, pick).value
                        && forall j :: 0 <= j < i ==> rows[j].name != pick
  {
    FirstNamedFinds(rows, pick);
    if !Named(rows[0], pick) {
      FirstNamedIsFirst(rows[1..], pick);
      var i :| 0 <= i < |rows[1..]| && rows[1..][i] == FirstNamed(rows[1..], pick).value
               && forall j :: 0 <= j < i ==> rows[1..][j].name != pick;
      assert rows[i + 1] == rows[1..][i];
      forall j | 0 <= j < i + 1 ensures rows[j].name != pick {
        if j > 0 { assert rows[j] == rows[1..][j - 1]; }
      }
    } else {
      assert rows[0] == FirstNamed(rows, pick).value;
    }
  }

  /** The detail tab's outcome: the row shown, or the IndexError of an unmatched pick. */
  datatype Detail = Found(element: Element) | NotFound(pick: Option<string>)

  /** The "Element Details" tab: the row shown for the picked name. */
  function ElementDetail(df: seq<Element>, pick: Option<string>): (d: Detail)
    ensures d.NotFound? <==> pick.None? || forall r :: r in df ==> r.name != pick
    ensures d.Found? ==> pick.Some? && d.element in df && d.element.name == pick
  {
    FirstNamedFinds(df, pick);
    match FirstNamed(df, pick)
    case None => NotFound(pick)
    case Some(r) => Found(r)
  }

  /**
   * Every entry the picker offers is some row's name. Such a pick is found,
   * as a row at or before the one offering it, exactly when it is not NaN.
   */
  lemma OfferedNameIsFound(df: seq<Element>, i: nat)
    requires i < |df|
    ensures var d := ElementDetail(df, df[i].name);
            (d.Found? <==> df[i].name.Some?)
            && (d.Found? ==> exists k :: 0 <= k <= i && df[k] == d.element)
  {
    var pick := df[i].name;
    assert df[i] in df;
    FirstNamedFinds(df, pick);
    if pick.Some? {
      FirstNamedIsFirst(df, pick);
    }
  }
}
