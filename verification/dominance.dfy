/**
 * Dominance filtering inside one height band: sort the band's rows descending
 * by (item count, stacked), relabel them 0..n-1, then drop every row that
 * shares a base item with any row ranked above it.
 */
module Dominance {
  import opened Superitems

  /**
   * A row of a sorted group: its label in the group (`name`), the label it
   * had in the superitem table (`superitemId`), and the superitem itself.
   */
  datatype GroupRow = GroupRow(name: int, superitemId: int, si: Superitem)

  /** `a` may precede `b` in an order descending by (item count, stacked). */
  predicate RanksAbove(a: Superitem, b: Superitem)
  {
    NumItems(a) > NumItems(b) || (NumItems(a) == NumItems(b) && (a.stacked || !b.stacked))
  }

  ghost predicate SortedDesc(t: seq<Entry>)
  {
    forall i, j :: 0 <= i < j < |t| ==> RanksAbove(t[i].si, t[j].si)
  }

  ghost predicate RowsSortedDesc(rows: seq<GroupRow>)
  {
    forall i, j :: 0 <= i < j < |rows| ==> RanksAbove(rows[i].si, rows[j].si)
  }

  /** `a` ranks at least as high as every entry of `t`. */
  ghost predicate RanksAboveAll(a: Superitem, t: seq<Entry>)
  {
    forall i :: 0 <= i < |t| ==> RanksAbove(a, t[i].si)
  }

  /** Inserts `e` after every leading entry that ranks at least as high. */
  function InsertEntry(t: seq<Entry>, e: Entry): (r: seq<Entry>)
    ensures multiset(r) == multiset(t) + multiset{e}
  {
    if t == [] then [e]
    else if RanksAbove(t[0].si, e.si) then
      assert t == [t[0]] + t[1..];
      [t[0]] + InsertEntry(t[1..], e)
    else
      [e] + t
  }

  /** An entry ranking above `e` and all of `t` ranks above all of the insertion. */
  lemma {:induction false} InsertKeepsBelow(a: Superitem, t: seq<Entry>, e: Entry)
    requires RanksAboveAll(a, t) && RanksAbove(a, e.si)
    ensures RanksAboveAll(a, InsertEntry(t, e))
  {
    if t != [] && RanksAbove(t[0].si, e.si) {
      InsertKeepsBelow(a, t[1..], e);
    }
  }

  /** Inserting into a descending sequence keeps it descending. */
  lemma {:induction false} InsertKeepsSorted(t: seq<Entry>, e: Entry)
    requires SortedDesc(t)
    ensures SortedDesc(InsertEntry(t, e))
  {
    if t != [] {
      if RanksAbove(t[0].si, e.si) {
        InsertKeepsSorted(t[1..], e);
        InsertKeepsBelow(t[0].si, t[1..], e);
      } else {
        assert forall j :: 0 <= j < |t| ==> RanksAbove(e.si, t[j].si) by {
          forall j | 0 <= j < |t| ensures RanksAbove(e.si, t[j].si) {
            assert RanksAbove(t[0].si, t[j].si) || j == 0;
          }
        }
      }
    }
  }

  /** A permutation of the rows, sorted descending by (item count, stacked). */
  function SortEntries(t: seq<Entry>): (r: seq<Entry>)
    ensures SortedDesc(r)
    ensures multiset(r) == multiset(t)
  {
    if t == [] then []
    else
      var sorted := SortEntries(t[..|t| - 1]);
      InsertKeepsSorted(sorted, t[|t| - 1]);
      assert t == t[..|t| - 1] + [t[|t| - 1]];
      InsertEntry(sorted, t[|t| - 1])
  }

  /** The table entries a sequence of group rows came from. */
  function Origins(rows: seq<GroupRow>): seq<Entry>
  {
    seq(|rows|, k requires 0 <= k < |rows| => Entry(rows[k].superitemId, rows[k].si))
  }

  /**
   * The band sorted and re-indexed: row `k` is labelled `k`, and keeps the
   * label it had in the table as its superitem id.
   */
  function SortedGroup(band: seq<Entry>): (rows: seq<GroupRow>)
    ensures |rows| == |band|
    ensures forall k :: 0 <= k < |rows| ==> rows[k].name == k
    ensures RowsSortedDesc(rows)
    ensures multiset(Origins(rows)) == multiset(band)
  {
    var t := SortEntries(band);
    var rows := seq(|t|, k requires 0 <= k < |t| => GroupRow(k, t[k].name, t[k].si));
    assert Origins(rows) == t;
    assert |multiset(t)| == |multiset(band)|;
    rows
  }

  /** The positions after `i` whose rows contain one of `items`. */
  function MarkedBy(rows: seq<GroupRow>, i: nat, items: seq<int>): (r: set<int>)
    ensures forall k :: k in r <==> i < k < |rows| && exists x :: x in items && x in Flatten(rows[k].si.items)
  {
    if items == [] then {}
    else
      var here := set k | i < k < |rows| && items[0] in Flatten(rows[k].si.items);
      here + MarkedBy(rows, i, items[1..])
  }

  /**
   * The positions the removal scan collects from rows `i..`: for every row
   * and every item of it, every later row containing that item. Rows that are
   * themselves collected still take part in the scan.
   */
  function IndexesToRemove(rows: seq<GroupRow>, i: nat): (r: set<int>)
    ensures forall k :: k in r <==> 0 <= k < |rows| && exists j :: i <= j < k && Overlap(rows[j].si, rows[k].si)
    decreases |rows| - i
  {
    if i >= |rows| then {}
    else MarkedBy(rows, i, Flatten(rows[i].si.items)) + IndexesToRemove(rows, i + 1)
  }

  ghost predicate NamesAscending(rows: seq<GroupRow>)
  {
    forall i, j :: 0 <= i < j < |rows| ==> rows[i].name < rows[j].name
  }

  /** The rows whose label is not in `names`, in their original order. */
  function DropNames(rows: seq<GroupRow>, names: set<int>): (r: seq<GroupRow>)
    ensures forall x :: x in r <==> x in rows && x.name !in names
    ensures |rows| > 0 && rows[0].name !in names ==> |r| > 0 && r[0] == rows[0]
  {
    if rows == [] then []
    else
      var rest := DropNames(rows[1..], names);
      assert forall x :: x in rows <==> x == rows[0] || x in rows[1..];
      if rows[0].name in names then rest else [rows[0]] + rest
  }

  /** Dropping rows keeps a lower bound on the labels. */
  lemma {:induction false} DropKeepsAbove(a: int, rows: seq<GroupRow>, names: set<int>)
    requires forall i :: 0 <= i < |rows| ==> a < rows[i].name
    ensures forall i :: 0 <= i < |DropNames(rows, names)| ==> a < DropNames(rows, names)[i].name
  {
    if rows != [] {
      DropKeepsAbove(a, rows[1..], names);
    }
  }

  /** Dropping rows keeps ascending labels ascending. */
  lemma {:induction false} DropKeepsAscending(rows: seq<GroupRow>, names: set<int>)
    requires NamesAscending(rows)
    ensures NamesAscending(DropNames(rows, names))
  {
    if rows != [] {
      var tail := rows[1..];
      assert forall i :: 0 <= i < |tail| ==> tail[i] == rows[i + 1];
      DropKeepsAscending(tail, names);
      DropKeepsAbove(rows[0].name, tail, names);
      var rest := DropNames(tail, names);
      assert DropNames(rows, names) == if rows[0].name in names then rest else [rows[0]] + rest;
    }
  }

  /**
   * One cleaned group: the sorted, relabelled band without the rows the
   * removal scan collected. A sorted row survives exactly when it shares no
   * base item with any row sorted above it, survivors keep their sorted
   * labels, and they appear in ascending label order.
   */
  function CleanGroup(band: seq<Entry>): (r: seq<GroupRow>)
    ensures forall j :: 0 <= j < |r| ==> 0 <= r[j].name < |band| && r[j] == SortedGroup(band)[r[j].name]
    ensures NamesAscending(r)
    ensures forall k :: 0 <= k < |band| ==>
      (SortedGroup(band)[k] in r <==> !exists i :: 0 <= i < k && Overlap(SortedGroup(band)[i].si, SortedGroup(band)[k].si))
  {
    Survivors(SortedGroup(band))
  }

  /** The rows labelled by position that the removal scan does not collect. */
  function Survivors(rows: seq<GroupRow>): (r: seq<GroupRow>)
    requires forall k :: 0 <= k < |rows| ==> rows[k].name == k
    ensures forall j :: 0 <= j < |r| ==> 0 <= r[j].name < |rows| && r[j] == rows[r[j].name]
    ensures NamesAscending(r)
    ensures forall k :: 0 <= k < |rows| ==>
      (rows[k] in r <==> !exists i :: 0 <= i < k && Overlap(rows[i].si, rows[k].si))
  {
    var names := IndexesToRemove(rows, 0);
    var r := DropNames(rows, names);
    assert forall j :: 0 <= j < |r| ==> r[j] in rows;
    DropKeepsAscending(rows, names);
    assert forall k :: 0 <= k < |rows| ==> (rows[k] in r <==> k !in names) by {
      forall k | 0 <= k < |rows| ensures rows[k] in r <==> k !in names {
        assert rows[k] in rows && rows[k].name == k;
      }
    }
    r
  }

  /** The top-ranked row of a non-empty band always survives, first. */
  lemma CleanGroupKeepsHead(band: seq<Entry>)
    requires |band| > 0
    ensures |CleanGroup(band)| > 0
    ensures CleanGroup(band)[0] == SortedGroup(band)[0]
    ensures CleanGroup(band)[0].name == 0
  {
    var r := CleanGroup(band);
    var s := SortedGroup(band);
    assert s[0] in r;
  }

  /** No two surviving rows of a group share a base item. */
  lemma CleanGroupDisjoint(band: seq<Entry>)
    ensures forall j1, j2 :: 0 <= j1 < |CleanGroup(band)| && 0 <= j2 < |CleanGroup(band)| && j1 != j2 ==>
      !Overlap(CleanGroup(band)[j1].si, CleanGroup(band)[j2].si)
  {
    var r := CleanGroup(band);
    var s := SortedGroup(band);
    forall j1, j2 | 0 <= j1 < j2 < |r|
      ensures !Overlap(r[j1].si, r[j2].si) && !Overlap(r[j2].si, r[j1].si)
    {
      var n1, n2 := r[j1].name, r[j2].name;
      assert n1 < n2;
      assert s[n2] in r;
      assert !Overlap(s[n1].si, s[n2].si);
    }
  }

  /** Surviving rows keep the descending (item count, stacked) order. */
  lemma CleanGroupSorted(band: seq<Entry>)
    ensures RowsSortedDesc(CleanGroup(band))
  {
    var r := CleanGroup(band);
    var s := SortedGroup(band);
    forall j1, j2 | 0 <= j1 < j2 < |r| ensures RanksAbove(r[j1].si, r[j2].si) {
      assert r[j1] == s[r[j1].name] && r[j2] == s[r[j2].name];
    }
  }

  /**
   * Every surviving row is a row of the band, carrying that row's table label
   * as its superitem id.
   */
  lemma CleanGroupFromBand(band: seq<Entry>)
    ensures forall j :: 0 <= j < |CleanGroup(band)| ==>
      Entry(CleanGroup(band)[j].superitemId, CleanGroup(band)[j].si) in band
  {
    var r := CleanGroup(band);
    var s := SortedGroup(band);
    forall j | 0 <= j < |r| ensures Entry(r[j].superitemId, r[j].si) in band {
      var k := r[j].name;
      assert Origins(s)[k] == Entry(r[j].superitemId, r[j].si);
      assert Origins(s)[k] in multiset(Origins(s));
    }
  }
}
