/** The gap-filling loops of iconv for GB18030 and CP949 (library/iconv/iconv.c): a linear index
    counts the code points that are not in a table. */
module GapFill {

  type Rows = seq<seq<nat>>

  /** How many of the first n entries of a row lie between d and c. */
  function InRow(row: seq<nat>, d: nat, c: int, n: nat): nat
    requires n <= |row|
  {
    if n == 0 then 0 else InRow(row, d, c, n - 1) + (if d <= row[n - 1] <= c then 1 else 0)
  }

  /** How many entries of the first n rows lie between d and c. */
  function InRows(t: Rows, d: nat, c: int, n: nat): nat
    requires n <= |t|
  {
    if n == 0 then 0 else InRows(t, d, c, n - 1) + InRow(t[n - 1], d, c, |t[n - 1]|)
  }

  function Count(t: Rows, d: nat, c: int): nat {
    InRows(t, d, c, |t|)
  }

  predicate Holds(t: Rows, x: nat) {
    exists i, j :: 0 <= i < |t| && 0 <= j < |t[i]| && t[i][j] == x
  }

  // ----------------------------------------------------------------------- counts

  lemma {:induction false} RowSplits(row: seq<nat>, d: nat, c: nat, e: nat, n: nat)
    requires n <= |row| && d <= c + 1 && c <= e
    ensures InRow(row, d, e, n) == InRow(row, d, c, n) + InRow(row, c + 1, e, n)
    decreases n
  {
    if n > 0 {
      RowSplits(row, d, c, e, n - 1);
    }
  }

  lemma {:induction false} RowsSplit(t: Rows, d: nat, c: nat, e: nat, n: nat)
    requires n <= |t| && d <= c + 1 && c <= e
    ensures InRows(t, d, e, n) == InRows(t, d, c, n) + InRows(t, c + 1, e, n)
    decreases n
  {
    if n > 0 {
      RowsSplit(t, d, c, e, n - 1);
      RowSplits(t[n - 1], d, c, e, |t[n - 1]|);
    }
  }

  lemma {:induction false} RowCounts(row: seq<nat>, d: nat, c: int, n: nat, j: nat)
    requires j < n <= |row| && d <= row[j] <= c
    ensures InRow(row, d, c, n) > 0
    decreases n
  {
    if j < n - 1 {
      RowCounts(row, d, c, n - 1, j);
    }
  }

  lemma {:induction false} RowsCount(t: Rows, d: nat, c: int, n: nat, i: nat, j: nat)
    requires i < n <= |t| && j < |t[i]| && d <= t[i][j] <= c
    ensures InRows(t, d, c, n) > 0
    decreases n
  {
    if i < n - 1 {
      RowsCount(t, d, c, n - 1, i, j);
    } else {
      RowCounts(t[i], d, c, |t[i]|, j);
    }
  }

  lemma NoneBetween(t: Rows, d: nat, c: nat)
    requires Count(t, d, c) == 0 && d <= c
    ensures !Holds(t, c)
  {
    if Holds(t, c) {
      var i, j :| 0 <= i < |t| && 0 <= j < |t[i]| && t[i][j] == c;
      RowsCount(t, d, c, |t|, i, j);
    }
  }

  function Size(t: Rows, n: nat): nat
    requires n <= |t|
  {
    if n == 0 then 0 else Size(t, n - 1) + |t[n - 1]|
  }

  lemma {:induction false} RowBound(row: seq<nat>, d: nat, c: int, n: nat)
    requires n <= |row|
    ensures InRow(row, d, c, n) <= n
  {
    if n > 0 {
      RowBound(row, d, c, n - 1);
    }
  }

  lemma {:induction false} RowsBound(t: Rows, d: nat, c: int, n: nat)
    requires n <= |t|
    ensures InRows(t, d, c, n) <= Size(t, n)
  {
    if n > 0 {
      RowsBound(t, d, c, n - 1);
      RowBound(t[n - 1], d, c, |t[n - 1]|);
    }
  }

  // -------------------------------------------------------------------- the loops

  /** The two inner loops. */
  method CountEntries(t: Rows, d: nat, c: int) returns (k: nat)
    ensures k == Count(t, d, c)
  {
    k := 0;
    for i := 0 to |t|
      invariant k == InRows(t, d, c, i)
    {
      ghost var before := k;
      for j := 0 to |t[i]|
        invariant k == before + InRow(t[i], d, c, j)
      {
        if d <= t[i][j] <= c {
          k := k + 1;
        }
      }
    }
  }

  /** c is the code point with index n, counting from start what the table leaves out. */
  ghost predicate IsFilled(t: Rows, start: nat, n: nat, c: nat) {
    && c == n + Count(t, start, c) && !Holds(t, c)
    && forall x: nat :: start <= x && n + Count(t, start, x) <= x ==> c <= x
  }

  /** The outer loop: for any table it ends, at the least code point that fits. */
  method Fill(t: Rows, start: nat, n: nat) returns (c: nat)
    requires start <= n
    ensures IsFilled(t, start, n, c)
  {
    var d := start;
    c := n;
    Nothing(t, start, start - 1, |t|);
    while d <= c
      invariant start <= d && n <= c && d <= c + 1
      invariant c == n + Count(t, start, d - 1)
      invariant d == c + 1 ==> !Holds(t, c)
      invariant forall x: nat :: start <= x && n + Count(t, start, x) <= x ==> c <= x
      decreases n + Size(t, |t|) - c, c + 1 - d
    {
      var k := CountEntries(t, d, c);
      Grows(t, start, d, c);
      RowsBound(t, start, c, |t|);
      forall x: nat | start <= x && n + Count(t, start, x) <= x
        ensures c + k <= x
      {
        Monotone(t, start, c, x);
      }
      if k == 0 {
        NoneBetween(t, d, c);
      }
      d := c + 1;
      c := c + k;
    }
  }

  /** Counting on from where the last count ended. */
  lemma Grows(t: Rows, start: nat, d: nat, c: nat)
    requires start <= d <= c
    ensures Count(t, start, c) == Count(t, start, d - 1) + Count(t, d, c)
  {
    if d == 0 {
      Nothing(t, start, d - 1, |t|);
    } else {
      RowsSplit(t, start, d - 1, c, |t|);
    }
  }

  lemma {:induction false} Nothing(t: Rows, d: nat, c: int, n: nat)
    requires n <= |t| && c < d
    ensures InRows(t, d, c, n) == 0
  {
    if n > 0 {
      Nothing(t, d, c, n - 1);
      NothingInRow(t[n - 1], d, c, |t[n - 1]|);
    }
  }

  lemma {:induction false} NothingInRow(row: seq<nat>, d: nat, c: int, n: nat)
    requires n <= |row| && c < d
    ensures InRow(row, d, c, n) == 0
  {
    if n > 0 {
      NothingInRow(row, d, c, n - 1);
    }
  }

  lemma Monotone(t: Rows, start: nat, c: nat, x: nat)
    requires start <= c + 1 && c <= x
    ensures Count(t, start, c) <= Count(t, start, x)
  {
    RowsSplit(t, start, c, x, |t|);
  }

  /** Different indices have different code points, in the same order. */
  lemma Increasing(t: Rows, start: nat, n: nat, n': nat, c: nat, c': nat)
    requires start <= n < n' && IsFilled(t, start, n, c) && IsFilled(t, start, n', c')
    ensures c < c'
  {
  }

  /** No code point from start on is in the table twice. */
  ghost predicate NoRepeats(t: Rows, start: nat) {
    forall v: nat :: v >= start ==> Count(t, v, v) <= 1
  }

  /** The number of code points that are left out grows by at most one at a time. */
  lemma {:induction false} Slow(t: Rows, start: nat, y: nat, x: nat)
    requires NoRepeats(t, start) && start <= y <= x
    ensures y - Count(t, start, y) <= x - Count(t, start, x)
    decreases x - y
  {
    if y < x {
      Slow(t, start, y, x - 1);
      Grows(t, start, x, x);
    }
  }

  lemma {:induction false} RowMissing(row: seq<nat>, x: nat, n: nat)
    requires n <= |row| && forall j :: 0 <= j < n ==> row[j] != x
    ensures InRow(row, x, x, n) == 0
  {
    if n > 0 {
      RowMissing(row, x, n - 1);
    }
  }

  lemma {:induction false} Missing(t: Rows, x: nat, n: nat)
    requires n <= |t| && !Holds(t, x)
    ensures InRows(t, x, x, n) == 0
  {
    if n > 0 {
      Missing(t, x, n - 1);
      RowMissing(t[n - 1], x, |t[n - 1]|);
    }
  }

  /** An index has one code point. */
  lemma Unique(t: Rows, start: nat, n: nat, c: nat, c': nat)
    requires start <= n && IsFilled(t, start, n, c) && IsFilled(t, start, n, c')
    ensures c == c'
  {
  }

  /** The code point of an index is at most x if and only if so many code points up to x are left
      out. */
  lemma AtMost(t: Rows, start: nat, n: nat, c: nat, x: nat)
    requires NoRepeats(t, start) && start <= n && start <= x && IsFilled(t, start, n, c)
    ensures c <= x <==> n + Count(t, start, x) <= x
  {
    if c <= x {
      Slow(t, start, c, x);
    }
  }

  /** A code point that is left out comes no earlier than the first index. */
  lemma IndexFromStart(t: Rows, start: nat, x: nat)
    requires NoRepeats(t, start) && start <= x && !Holds(t, x)
    ensures start + Count(t, start, x) <= x
  {
    Grows(t, start, x, x);
    Missing(t, x, |t|);
    if start < x {
      Slow(t, start, start, x - 1);
    } else {
      Nothing(t, start, start - 1, |t|);
    }
  }

  /** Where no code point is in the table twice, every code point it leaves out has an index: the
      loop enumerates exactly those. */
  lemma Onto(t: Rows, start: nat, x: nat)
    requires NoRepeats(t, start) && start <= x && !Holds(t, x)
    ensures Count(t, start, x) <= x && IsFilled(t, start, x - Count(t, start, x), x)
  {
    IndexFromStart(t, start, x);
    Grows(t, start, x, x);
    Missing(t, x, |t|);
    var n := x - Count(t, start, x);
    forall y: nat | start <= y && n + Count(t, start, y) <= y
      ensures x <= y
    {
      if y < x {
        Slow(t, start, y, if y < x then x - 1 else x);
      }
    }
  }
}
