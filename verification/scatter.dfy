/**
 * The "3D Scatter" tab's row selection: the full dataset narrowed to the
 * atomic numbers inside the slider's range.
 */
module Scatter {
  import opened Dataset
  import opened Selection

  /** The scatter tab's window: rows whose atomic number lies in [lo, hi], in dataset order. */
  function AtomicWindow(df: seq<Element>, lo: int, hi: int): (rows: seq<Element>)
    ensures forall r :: r in rows <==> r in df && lo <= r.atomicNumber <= hi
    ensures Subsequence(rows, df)
  {
    Keep(df, AtomicBetween(lo, hi))
  }

  /** On a dataset listed by atomic number, the window is too. */
  lemma AtomicWindowAscending(df: seq<Element>, lo: int, hi: int)
    requires AscendingByAtomicNumber(df)
    ensures AscendingByAtomicNumber(AtomicWindow(df, lo, hi))
  {
    KeepAscending(df, AtomicBetween(lo, hi));
  }
}
