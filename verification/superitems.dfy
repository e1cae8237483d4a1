/**
 * Superitems: rigid stacks of base items with a fixed footprint and height,
 * as they appear as rows of the superitem table.
 */
module Superitems {

  /** The composition of a superitem: base item ids, nested arbitrarily deep. */
  datatype ItemTree = Item(id: int) | Stack(parts: seq<ItemTree>)

  /** One superitem: footprint, height, whether it has several tiers, and its items. */
  datatype Superitem = Superitem(length: int, width: int, height: int, stacked: bool, items: ItemTree)

  /** A row of the superitem table: its index label (`name`) and its data. */
  datatype Entry = Entry(name: int, si: Superitem)

  /** Every base item id occurring anywhere in the tree. */
  ghost function Leaves(t: ItemTree): set<int>
  {
    match t
    case Item(id) => {id}
    case Stack(parts) => set p, x | p in parts && x in Leaves(p) :: x
  }

  /** Concatenation of a sequence of id lists. */
  function Concat(ss: seq<seq<int>>): (r: seq<int>)
    ensures forall x :: x in r <==> exists i :: 0 <= i < |ss| && x in ss[i]
  {
    if ss == [] then []
    else
      var r := ss[0] + Concat(ss[1..]);
      assert forall i :: 1 <= i < |ss| ==> ss[i] == ss[1..][i - 1];
      r
  }

  /**
   * The leaf ids of a composition, depth first and left to right, with
   * repetitions kept: the list whose length is the superitem's item count.
   */
  function Flatten(t: ItemTree): (r: seq<int>)
    ensures forall x :: x in r <==> x in Leaves(t)
  {
    match t
    case Item(id) => [id]
    case Stack(parts) =>
      var flat := seq(|parts|, i requires 0 <= i < |parts| => Flatten(parts[i]));
      assert forall i :: 0 <= i < |parts| ==> parts[i] in parts && flat[i] == Flatten(parts[i]);
      assert forall x :: x in Leaves(t) ==> exists i :: 0 <= i < |parts| && x in flat[i] by {
        forall x | x in Leaves(t) ensures exists i :: 0 <= i < |parts| && x in flat[i] {
          var p :| p in parts && x in Leaves(p);
          var i :| 0 <= i < |parts| && parts[i] == p;
          assert x in flat[i];
        }
      }
      Concat(flat)
  }

  /** The number of base items a superitem covers, counted with repetitions. */
  function NumItems(s: Superitem): nat
  {
    |Flatten(s.items)|
  }

  /** Two superitems have at least one base item in common. */
  predicate Overlap(a: Superitem, b: Superitem)
  {
    exists x :: x in Flatten(a.items) && x in Flatten(b.items)
  }
}
