/**
 * The grouping step as a whole: one cleaned group per representative height.
 */
module InitialGroups {
  import opened Superitems
  import opened HeightBands
  import opened Dominance

  /**
   * What a cleaned group for representative height `h` guarantees: it is
   * non-empty, its first row is labelled 0, its rows stay sorted descending
   * by `(num_items, stacked)`, no two of its rows share a base item, and
   * every row's superitem id is the table label of a row whose height lies in
   * `[h, h + tol]`.
   */
  ghost predicate WellFormedGroup(group: seq<GroupRow>, table: seq<Entry>, h: int, tol: int)
  {
    && |group| > 0
    && group[0].name == 0
    && RowsSortedDesc(group)
    && (forall j1, j2 :: 0 <= j1 < |group| && 0 <= j2 < |group| && j1 != j2 ==> !Overlap(group[j1].si, group[j2].si))
    && (forall j :: 0 <= j < |group| ==>
          Entry(group[j].superitemId, group[j].si) in table && h <= group[j].si.height <= h + tol)
  }

  lemma CleanBandWellFormed(table: seq<Entry>, h: int, tol: int)
    requires |Band(table, h, tol)| > 0
    ensures WellFormedGroup(CleanGroup(Band(table, h, tol)), table, h, tol)
  {
    var band := Band(table, h, tol);
    CleanGroupKeepsHead(band);
    CleanGroupSorted(band);
    CleanGroupDisjoint(band);
    CleanGroupFromBand(band);
  }

  /**
   * `get_initial_groups`: group `g` is the band of the `g`-th representative
   * height with dominated rows removed. Survivors keep the labels they had
   * after sorting, so a group's labels have gaps wherever a row was dropped
   * before its last row. With a non-negative tolerance every group is well
   * formed for its representative height.
   */
  function InitialGroups(table: seq<Entry>, tol: int): (groups: seq<seq<GroupRow>>)
    ensures |groups| == |KeptHeights(UniqueHeights(table), tol)|
    ensures forall g :: 0 <= g < |groups| ==>
      groups[g] == CleanGroup(Band(table, KeptHeights(UniqueHeights(table), tol)[g], tol))
    ensures tol >= 0 ==> forall g :: 0 <= g < |groups| ==>
      WellFormedGroup(groups[g], table, KeptHeights(UniqueHeights(table), tol)[g], tol)
  {
    var kept := KeptHeights(UniqueHeights(table), tol);
    var bands := Bands(table, tol);
    var groups := seq(|bands|, g requires 0 <= g < |bands| => CleanGroup(bands[g]));
    assert tol >= 0 ==> forall g :: 0 <= g < |groups| ==> WellFormedGroup(groups[g], table, kept[g], tol) by {
      forall g | tol >= 0 && 0 <= g < |groups| ensures WellFormedGroup(groups[g], table, kept[g], tol) {
        CleanBandWellFormed(table, kept[g], tol);
      }
    }
    groups
  }
}
