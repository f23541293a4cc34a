/** Square boolean grids shared by the Game of Life and Langton's ant models. */
module Grid {

  /** `g` is an `n` by `n` matrix, indexed `g[row][col]`. */
  predicate IsSquare(g: seq<seq<bool>>, n: nat)
  {
    |g| == n && forall i :: 0 <= i < n ==> |g[i]| == n
  }

  /** The `n` by `n` grid whose cells are all false (dead, or white). */
  function Blank(n: nat): (g: seq<seq<bool>>)
    ensures IsSquare(g, n)
  {
    seq(n, _ => seq(n, _ => false))
  }

  /** The contents of a two-dimensional array, row by row. */
  function Snapshot(a: array2<bool>): (g: seq<seq<bool>>)
    reads a
    ensures |g| == a.Length0
    ensures forall i :: 0 <= i < a.Length0 ==> |g[i]| == a.Length1
    ensures forall i, j :: 0 <= i < a.Length0 && 0 <= j < a.Length1 ==> g[i][j] == a[i, j]
  {
    seq(a.Length0, i requires 0 <= i < a.Length0 reads a =>
      seq(a.Length1, j requires 0 <= j < a.Length1 reads a => a[i, j]))
  }

  /** Two square grids of the same size are equal when they agree cell by cell. */
  lemma SquareExtensionality(g: seq<seq<bool>>, h: seq<seq<bool>>, n: nat)
    requires IsSquare(g, n) && IsSquare(h, n)
    requires forall i, j :: 0 <= i < n && 0 <= j < n ==> g[i][j] == h[i][j]
    ensures g == h
  {
    forall i | 0 <= i < n
      ensures g[i] == h[i]
    {
      assert forall j :: 0 <= j < n ==> g[i][j] == h[i][j];
    }
  }
}
