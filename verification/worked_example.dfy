/**
 * A worked instance of global mode: two superitems of height 5 packed into
 * one layer of the first group, and one of height 8 alone in the layer of a
 * second group.
 */
module WorkedExample {
  import opened Superitems
  import opened Dominance
  import opened Incidence
  import opened Assembly

  /** A layer whose candidate rows all have height `x` has height `x`. */
  lemma OnlyHeight(rows: seq<Keyed>, ids: seq<int>, h: int, x: int)
    requires IsLayerHeight(rows, ids, h)
    requires forall k :: 0 <= k < |rows| ==> rows[k].height == x
    ensures h == x
  {
  }

  /** A 3x2 block whose two columns record the two example layers is the expected one. */
  lemma ReadOff(b: Block)
    requires HasShape(b.incidence, 3, 2) && |b.heights| == 2
    requires Describes(b, 3, 0, [Keyed(0, 5), Keyed(1, 5)], [Placement(0, 0, 0), Placement(1, 10, 0)])
    requires Describes(b, 3, 1, [Keyed(2, 8)], [Placement(2, 0, 0)])
    ensures b == Block([[1, 0], [1, 0], [0, 1]], [5, 8])
  {
    assert Ids([Placement(0, 0, 0), Placement(1, 10, 0)]) == [0, 1];
    assert Ids([Placement(2, 0, 0)]) == [2];
    assert b.incidence[0] == [1, 0];
    assert b.incidence[1] == [1, 0];
    assert b.incidence[2] == [0, 1];
    OnlyHeight([Keyed(0, 5), Keyed(1, 5)], [0, 1], b.heights[0], 5);
    OnlyHeight([Keyed(2, 8)], [2], b.heights[1], 8);
  }

  /**
   * Superitems 0 and 1 (height 5) form the first group and share its one
   * layer; superitem 2 (height 8) forms the second group, alone in its
   * layer. The global matrix is 3x2 with rows 0 and 1 set in column 0 and
   * row 2 set in column 1, and the height vector is [5, 8].
   */
  lemma TwoGroupsExample(a: Superitem, a': Superitem, c: Superitem, groups: seq<seq<GroupRow>>, packed: seq<seq<Layer>>)
    requires a.height == 5 && a'.height == 5 && c.height == 8
    requires groups == [[GroupRow(0, 0, a), GroupRow(1, 1, a')], [GroupRow(0, 2, c)]]
    requires packed == [[[Placement(0, 0, 0), Placement(1, 10, 0)]], [[Placement(2, 0, 0)]]]
    ensures forall g :: 0 <= g < 2 ==> PackedFrom(ByIds(groups[g]), packed[g]) && IdsInRange(packed[g], 3)
    ensures WarmStart(3, groups, packed) == Block([[1, 0], [1, 0], [0, 1]], [5, 8])
  {
    assert ByIds(groups[0]) == [Keyed(0, 5), Keyed(1, 5)];
    assert ByIds(groups[1]) == [Keyed(2, 8)];
    assert PackedFrom(ByIds(groups[0]), packed[0]) by {
      assert ByIds(groups[0])[0].key == packed[0][0][0].id;
      assert ByIds(groups[0])[1].key == packed[0][0][1].id;
    }
    assert PackedFrom(ByIds(groups[1]), packed[1]) by {
      assert ByIds(groups[1])[0].key == packed[1][0][0].id;
    }
    var b := WarmStart(3, groups, packed);
    assert Offset(packed, 0) == 0 && Offset(packed, 1) == 1 && TotalLayers(packed) == 2;
    assert HoldsLayer(b, 3, groups, packed, 0, 0);
    assert HoldsLayer(b, 3, groups, packed, 1, 0);
    ReadOff(b);
  }
}
