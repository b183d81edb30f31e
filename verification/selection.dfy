/**
 * Row selection: the boolean masks the views apply to a table
 * (`df[mask]`), and what chaining them does. Every mask keeps the rows
 * that pass, in their original order.
 */
module Selection {
  import opened Dataset
  import opened Text

  /** One row test, as one pandas mask builds it. */
  datatype Test =
    | NameContains(query: string)             // Element contains query, case ignored, NaN fails
    | GroupIn(groups: set<int>)               // Group isin(groups), NaN fails
    | PeriodIn(periods: set<int>)             // Period isin(periods), NaN fails
    | TypeIs(expected: string)                // Type == expected, NaN fails
    | RadioactiveIs(flag: string)             // Radioactive == flag, NaN fails
    | AtomicBetween(least: int, most: int)    // least <= AtomicNumber <= most
    | ValueBetween(column: Column, lo: real, hi: real)  // lo <= column <= hi, NaN fails
    | ValuePresent(column: Column)            // column is not NaN
    | ValueOneOf(column: Column, accepted: set<Value>)  // column isin(accepted), NaN fails

  predicate Holds(t: Test, r: Element) {
    match t
    case NameContains(q) => r.name.Some? && ContainsIgnoringCase(r.name.value, q)
    case GroupIn(gs) => r.group.Some? && r.group.value in gs
    case PeriodIn(ps) => r.period.Some? && r.period.value in ps
    case TypeIs(expected) => r.elementType == Some(expected)
    case RadioactiveIs(flag) => r.radioactive == Some(flag)
    case AtomicBetween(least, most) => least <= r.atomicNumber <= most
    case ValueBetween(c, lo, hi) => Cell(r, c).Num? && lo <= Cell(r, c).x <= hi
    case ValuePresent(c) => !Cell(r, c).Absent?
    case ValueOneOf(c, accepted) => !Cell(r, c).Absent? && Cell(r, c) in accepted
  }

  /** `a` is `b` with some entries removed, the rest kept in order. */
  predicate Subsequence<T(==)>(a: seq<T>, b: seq<T>)
    decreases |b|
  {
    a == [] || (b != [] && ((a[0] == b[0] && Subsequence(a[1..], b[1..])) || Subsequence(a, b[1..])))
  }

  lemma {:induction false} SubsequenceTransitive<T>(a: seq<T>, b: seq<T>, c: seq<T>)
    requires Subsequence(a, b) && Subsequence(b, c)
    ensures Subsequence(a, c)
    decreases |c|
  {
    if a != [] {
      if Subsequence(b, c[1..]) {
        SubsequenceTransitive(a, b, c[1..]);
      } else if a[0] == b[0] && Subsequence(a[1..], b[1..]) {
        SubsequenceTransitive(a[1..], b[1..], c[1..]);
      } else {
        SubsequenceTransitive(a, b[1..], c[1..]);
      }
    }
  }

  lemma {:induction false} SubsequenceReflexive<T>(a: seq<T>)
    ensures Subsequence(a, a)
    decreases |a|
  {
    if a != [] {
      SubsequenceReflexive(a[1..]);
    }
  }

  /** `rows[mask]` for the mask of one test. */
  function Keep(rows: seq<Element>, t: Test): (kept: seq<Element>)
    ensures |kept| <= |rows|
    ensures forall r :: r in kept <==> r in rows && Holds(t, r)
    ensures Subsequence(kept, rows)
  {
    if rows == [] then []
    else if Holds(t, rows[0]) then [rows[0]] + Keep(rows[1..], t)
    else Keep(rows[1..], t)
  }

  /** A row passes a list of tests when it passes every one of them (AND). */
  predicate PassesAll(ts: seq<Test>, r: Element) {
    forall t :: t in ts ==> Holds(t, r)
  }

  lemma PassesAllConcat(ts: seq<Test>, us: seq<Test>, r: Element)
    ensures PassesAll(ts + us, r) <==> PassesAll(ts, r) && PassesAll(us, r)
  {
  }

  /** The rows passing every test of `ts`, in their original order. */
  function Where(rows: seq<Element>, ts: seq<Test>): (kept: seq<Element>)
    ensures |kept| <= |rows|
    ensures forall r :: r in kept <==> r in rows && PassesAll(ts, r)
    ensures Subsequence(kept, rows)
  {
    if rows == [] then []
    else if PassesAll(ts, rows[0]) then [rows[0]] + Where(rows[1..], ts)
    else Where(rows[1..], ts)
  }

  /** With no test active, nothing is removed. */
  lemma {:induction false} WhereNothing(rows: seq<Element>)
    ensures Where(rows, []) == rows
  {
    if rows != [] {
      WhereNothing(rows[1..]);
    }
  }

  /** Applying one more mask to a selection is selecting with one more test. */
  lemma {:induction false} KeepNarrows(rows: seq<Element>, ts: seq<Test>, t: Test)
    ensures Keep(Where(rows, ts), t) == Where(rows, ts + [t])
  {
    if rows != [] {
      KeepNarrows(rows[1..], ts, t);
      assert PassesAll(ts + [t], rows[0]) == (PassesAll(ts, rows[0]) && Holds(t, rows[0]));
    }
  }

  /** Applying an optional mask: no mask, or exactly one. */
  lemma NarrowByOptional(rows: seq<Element>, ts: seq<Test>, more: seq<Test>)
    requires |more| <= 1
    ensures Where(rows, ts + more) == if more == [] then Where(rows, ts) else Keep(Where(rows, ts), more[0])
  {
    if more == [] {
      assert ts + more == ts;
    } else {
      assert more == [more[0]];
      KeepNarrows(rows, ts, more[0]);
    }
  }

  /** The order in which the tests are listed (applied) does not matter. */
  lemma {:induction false} WhereOrderIrrelevant(rows: seq<Element>, ts: seq<Test>, us: seq<Test>)
    requires forall t :: t in ts <==> t in us
    ensures Where(rows, ts) == Where(rows, us)
  {
    if rows != [] {
      WhereOrderIrrelevant(rows[1..], ts, us);
      assert PassesAll(ts, rows[0]) == PassesAll(us, rows[0]);
    }
  }

  /** Selecting twice with the same tests is selecting once. */
  lemma {:induction false} WhereIdempotent(rows: seq<Element>, ts: seq<Test>)
    ensures Where(Where(rows, ts), ts) == Where(rows, ts)
  {
    if rows != [] {
      WhereIdempotent(rows[1..], ts);
    }
  }

  /** A mask keeps a list sorted by atomic number sorted. */
  lemma {:induction false} KeepAscending(rows: seq<Element>, t: Test)
    requires AscendingByAtomicNumber(rows)
    ensures AscendingByAtomicNumber(Keep(rows, t))
  {
    if rows != [] {
      var rest := rows[1..];
      assert AscendingByAtomicNumber(rest) by {
        forall i, j | 0 <= i < j < |rest| ensures rest[i].atomicNumber < rest[j].atomicNumber {
          assert rest[i] == rows[i + 1] && rest[j] == rows[j + 1];
        }
      }
      KeepAscending(rest, t);
      if Holds(t, rows[0]) {
        var tail := Keep(rest, t);
        forall k | 0 <= k < |tail| ensures rows[0].atomicNumber < tail[k].atomicNumber {
          assert tail[k] in rest;
          var j :| 0 <= j < |rest| && rest[j] == tail[k];
          assert rows[j + 1] == tail[k];
        }
      }
    }
  }
}
