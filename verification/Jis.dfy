/** uni_to_jis (library/iconv/iconv.c): a binary search in a table of cells that is sorted by
    what the cells hold. */
module Jis {

  /** jis0208: 84 rows of 94 cells; an index j stands for row j / 256, column j % 256. */
  datatype Table = Table(cells: (nat, nat) -> nat, rev: seq<nat>) {

    function Cell(j: nat): nat {
      cells(j / 256, j % 256)
    }

    predicate InGrid(j: nat) {
      j / 256 < 84 && j % 256 < 94
    }

    /** The reverse table lists cells of the grid in the order of their contents. */
    ghost predicate Sorted() {
      && |rev| > 0 && (forall i :: 0 <= i < |rev| ==> InGrid(rev[i]))
      && forall i, k :: 0 <= i < k < |rev| ==> Cell(rev[i]) < Cell(rev[k])
    }

    /** It lists every cell that holds a character. */
    ghost predicate Complete() {
      forall j :: InGrid(j) && Cell(j) != 0 ==> j in rev
    }
  }

  const BASE: nat := 0x2121

  /** What the search may return: zero, or a cell with the character, counted from the base. */
  ghost predicate IsResult(t: Table, c: nat, j: nat) {
    && (j == 0 ==> forall i :: 0 <= i < |t.rev| ==> t.Cell(t.rev[i]) != c)
    && (j != 0 ==> exists i :: 0 <= i < |t.rev| && j == t.rev[i] + BASE && t.Cell(t.rev[i]) == c)
  }

  method UniToJis(t: Table, c: nat) returns (j: nat)
    requires t.Sorted()
    ensures IsResult(t, c, j)
  {
    var nel, b := |t.rev|, 0;
    while true
      invariant 0 < nel && 0 <= b && b + nel <= |t.rev|
      invariant forall i :: 0 <= i < |t.rev| && t.Cell(t.rev[i]) == c ==> b <= i < b + nel
      decreases nel
    {
      var i := nel / 2;
      var d := t.Cell(t.rev[b + i]);
      if d == c {
        return t.rev[b + i] + BASE;
      } else if nel == 1 {
        return 0;
      } else if c < d {
        nel := nel / 2;
      } else {
        b := b + i;
        nel := nel - nel / 2;
      }
    }
  }

  /** Some cell of the grid holds c. */
  ghost predicate Has(t: Table, c: nat) {
    exists k :: t.InGrid(k) && t.Cell(k) == c
  }

  /** A result other than zero is a cell of the grid with the character; given the whole table, it
      is zero only when no cell has it. */
  lemma ResultMeans(t: Table, c: nat, j: nat)
    requires t.Sorted() && IsResult(t, c, j)
    ensures j != 0 ==> j >= BASE && t.InGrid(j - BASE) && t.Cell(j - BASE) == c
    ensures t.Complete() && c != 0 ==> (j != 0 <==> Has(t, c))
  {
    if j != 0 {
      var i :| 0 <= i < |t.rev| && j == t.rev[i] + BASE && t.Cell(t.rev[i]) == c;
      assert t.InGrid(t.rev[i]);
    }
    if Has(t, c) && t.Complete() && c != 0 {
      var k :| t.InGrid(k) && t.Cell(k) == c;
      assert k in t.rev;
    }
  }

  /** Given the whole table, the search finds a cell exactly when there is one, and that cell. */
  method FindCell(t: Table, c: nat) returns (j: nat)
    requires t.Sorted() && t.Complete() && c != 0
    ensures j != 0 <==> Has(t, c)
    ensures j != 0 ==> j >= BASE && t.InGrid(j - BASE) && t.Cell(j - BASE) == c
  {
    j := UniToJis(t, c);
    ResultMeans(t, c, j);
  }
}
