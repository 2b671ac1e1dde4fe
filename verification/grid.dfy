/** The subplot grid of the static script: a fixed number of columns and
    as many rows as the charts need, with the left-over cells switched off. */
module Grid {

  /** Subplot columns of the static figure. */
  const Cols: nat := 4

  /** `(n + cols - 1) // cols`: the rows needed for `n` charts. */
  function GridRows(n: nat): (rows: nat)
    ensures rows * Cols >= n
    ensures rows == 0 || (rows - 1) * Cols < n
  {
    (n + Cols - 1) / Cols
  }

  /** No smaller number of rows holds `n` charts. */
  lemma GridRowsFewest(n: nat, rows: nat)
    requires rows * Cols >= n
    ensures GridRows(n) <= rows
  {
  }

  /** The cells `axes[n:]` that are turned off. */
  function BlankedCells(n: nat): (b: nat)
    ensures b < Cols
    ensures n + b == GridRows(n) * Cols
  {
    GridRows(n) * Cols - n
  }
}
