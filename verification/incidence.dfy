/**
 * 0/1 superitem-by-layer matrices, filled the way the assemblers fill them:
 * start from zeros and set one entry per placement.
 */
module Incidence {

  /** Rows of equal length; row `i` is superitem `i`, column `l` is layer `l`. */
  type Matrix = seq<seq<int>>

  ghost predicate HasShape(m: Matrix, rows: nat, cols: nat)
  {
    |m| == rows && forall i :: 0 <= i < rows ==> |m[i]| == cols
  }

  /** Every layer lists row indices of a matrix with `rows` rows. */
  ghost predicate RowsInRange(layers: seq<seq<int>>, rows: nat)
  {
    forall l, k :: 0 <= l < |layers| && 0 <= k < |layers[l]| ==> 0 <= layers[l][k] < rows
  }

  function Zeros(rows: nat, cols: nat): (m: Matrix)
    ensures HasShape(m, rows, cols)
    ensures forall i, j :: 0 <= i < rows && 0 <= j < cols ==> m[i][j] == 0
  {
    seq(rows, _ => seq(cols, _ => 0))
  }

  /** The identity matrix: each row alone in its own column. */
  function Eye(n: nat): (m: Matrix)
    ensures HasShape(m, n, n)
    ensures forall i, j :: 0 <= i < n && 0 <= j < n ==> m[i][j] == (if i == j then 1 else 0)
  {
    seq(n, i => seq(n, j => if i == j then 1 else 0))
  }

  /** Places `b`'s columns to the right of `a`'s, row by row. */
  function HConcat(a: Matrix, b: Matrix): (m: Matrix)
    requires |a| == |b|
    ensures |m| == |a|
    ensures forall i :: 0 <= i < |a| ==> m[i] == a[i] + b[i]
  {
    seq(|a|, i requires 0 <= i < |a| => a[i] + b[i])
  }

  /** Sets column `c` to 1 in each listed row; every other entry is unchanged. */
  function MarkColumn(m: Matrix, hits: seq<int>, c: nat): (r: Matrix)
    requires forall k :: 0 <= k < |hits| ==> 0 <= hits[k] < |m| && c < |m[hits[k]]|
    ensures |r| == |m|
    ensures forall i :: 0 <= i < |m| ==> |r[i]| == |m[i]|
    ensures forall i, j :: 0 <= i < |m| && 0 <= j < |m[i]| ==>
      r[i][j] == (if j == c && i in hits then 1 else m[i][j])
    decreases |hits|
  {
    if hits == [] then m
    else
      var i := hits[0];
      var r := MarkColumn(m[i := m[i][c := 1]], hits[1..], c);
      assert forall x :: x in hits <==> x == i || x in hits[1..];
      r
  }

  /** Marks layers `l..` of `layers`, each in its own column. */
  function MarkLayersFrom(m: Matrix, layers: seq<seq<int>>, l: nat): (r: Matrix)
    requires HasShape(m, |m|, |layers|)
    requires RowsInRange(layers, |m|)
    requires l <= |layers|
    ensures HasShape(r, |m|, |layers|)
    ensures forall i, j :: 0 <= i < |m| && 0 <= j < |layers| ==>
      r[i][j] == (if l <= j && i in layers[j] then 1 else m[i][j])
    decreases |layers| - l
  {
    if l == |layers| then m
    else MarkLayersFrom(MarkColumn(m, layers[l], l), layers, l + 1)
  }

  /**
   * The incidence matrix of `layers` over `rows` rows: exactly the entries
   * whose row is listed in the entry's layer are 1, all others are 0.
   */
  function Fill(rows: nat, layers: seq<seq<int>>): (m: Matrix)
    requires RowsInRange(layers, rows)
    ensures HasShape(m, rows, |layers|)
    ensures forall i, l :: 0 <= i < rows && 0 <= l < |layers| ==> (m[i][l] == 1 <==> i in layers[l])
    ensures forall i, l :: 0 <= i < rows && 0 <= l < |layers| ==> (m[i][l] == 0 <==> i !in layers[l])
  {
    MarkLayersFrom(Zeros(rows, |layers|), layers, 0)
  }
}
