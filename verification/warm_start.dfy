/**
 * Warm-start assembly: turn the layers a rectangle packer returns for each
 * group into a 0/1 superitem-by-layer matrix and a per-layer height vector,
 * in three variants (global row ids, per-group local rows, no grouping),
 * plus the one-superitem-per-layer fallback.
 *
 * The packer itself is not modelled: its output is an input here, a list of
 * layers, each a list of placements (superitem id, x, y).
 */
module Assembly {
  import opened Superitems
  import opened Dominance
  import opened Incidence

  datatype Placement = Placement(id: int, x: int, y: int)

  /** One bin of the packer's output. */
  type Layer = seq<Placement>

  /** A matrix together with the height of each of its columns. */
  datatype Block = Block(incidence: Matrix, heights: seq<int>)

  function Ids(layer: Layer): seq<int>
  {
    seq(|layer|, k requires 0 <= k < |layer| => layer[k].id)
  }

  function LayerIds(layers: seq<Layer>): seq<seq<int>>
  {
    seq(|layers|, l requires 0 <= l < |layers| => Ids(layers[l]))
  }

  /** Every placement id of every layer is below `n`. */
  ghost predicate IdsInRange(layers: seq<Layer>, n: nat)
  {
    forall l, k :: 0 <= l < |layers| && 0 <= k < |layers[l]| ==> 0 <= layers[l][k].id < n
  }

  // ---------------------------------------------------------------------
  // Layer heights

  /** A row the height lookup searches: the key it is selected by, and its height. */
  datatype Keyed = Keyed(key: int, height: int)

  /** Group rows selected by superitem id. */
  function ByIds(group: seq<GroupRow>): (rows: seq<Keyed>)
    ensures |rows| == |group|
    ensures forall j :: 0 <= j < |group| ==> rows[j] == Keyed(group[j].superitemId, group[j].si.height)
  {
    seq(|group|, j requires 0 <= j < |group| => Keyed(group[j].superitemId, group[j].si.height))
  }

  /** Table rows selected by their label. */
  function ByNames(table: seq<Entry>): (rows: seq<Keyed>)
    ensures |rows| == |table|
    ensures forall j :: 0 <= j < |table| ==> rows[j] == Keyed(table[j].name, table[j].si.height)
  {
    seq(|table|, j requires 0 <= j < |table| => Keyed(table[j].name, table[j].si.height))
  }

  ghost predicate Selects(rows: seq<Keyed>, ids: seq<int>)
  {
    exists k :: 0 <= k < |rows| && rows[k].key in ids
  }

  /** `h` is the greatest height among the rows whose key is in `ids`. */
  ghost predicate IsLayerHeight(rows: seq<Keyed>, ids: seq<int>, h: int)
  {
    && (exists k :: 0 <= k < |rows| && rows[k].key in ids && rows[k].height == h)
    && (forall k :: 0 <= k < |rows| && rows[k].key in ids ==> rows[k].height <= h)
  }

  /**
   * The height of a layer: the maximum height of the rows whose key occurs in
   * it. It is at least every occupant's height and equal to one of them.
   */
  function LayerHeight(rows: seq<Keyed>, ids: seq<int>): (h: int)
    requires Selects(rows, ids)
    ensures IsLayerHeight(rows, ids, h)
  {
    var rest := rows[1..];
    assert forall k :: 1 <= k < |rows| ==> rows[k] == rest[k - 1];
    if rows[0].key !in ids then
      LayerHeight(rest, ids)
    else if exists k :: 0 <= k < |rest| && rest[k].key in ids then
      var h := LayerHeight(rest, ids);
      if rows[0].height < h then h else rows[0].height
    else
      rows[0].height
  }

  /**
   * The packer's output is fit for these rows: no layer is empty and every
   * placement id is the key of one of the rows.
   */
  ghost predicate PackedFrom(rows: seq<Keyed>, layers: seq<Layer>)
  {
    forall l :: 0 <= l < |layers| ==>
      && |layers[l]| > 0
      && forall k :: 0 <= k < |layers[l]| ==> exists j :: 0 <= j < |rows| && rows[j].key == layers[l][k].id
  }

  function LayerHeights(rows: seq<Keyed>, layers: seq<Layer>): (o: seq<int>)
    requires PackedFrom(rows, layers)
    ensures |o| == |layers|
    ensures forall l :: 0 <= l < |layers| ==> IsLayerHeight(rows, Ids(layers[l]), o[l])
  {
    assert forall l :: 0 <= l < |layers| ==> Selects(rows, Ids(layers[l])) by {
      forall l | 0 <= l < |layers| ensures Selects(rows, Ids(layers[l])) {
        var j :| 0 <= j < |rows| && rows[j].key == layers[l][0].id;
        assert Ids(layers[l])[0] == rows[j].key;
      }
    }
    seq(|layers|, l requires 0 <= l < |layers| => LayerHeight(rows, Ids(layers[l])))
  }

  /**
   * Column `c` of `b` records `layer` over `n` rows: an entry is 1 exactly
   * when its row id is placed in the layer and 0 otherwise, and the column's
   * height is the tallest of `rows` placed in the layer.
   */
  ghost predicate Describes(b: Block, n: nat, c: int, rows: seq<Keyed>, layer: Layer)
  {
    && 0 <= c < |b.heights|
    && |b.incidence| == n
    && (forall s :: 0 <= s < n ==>
          && c < |b.incidence[s]|
          && (b.incidence[s][c] == 1 <==> s in Ids(layer))
          && (b.incidence[s][c] == 0 <==> s !in Ids(layer)))
    && IsLayerHeight(rows, Ids(layer), b.heights[c])
  }

  /**
   * The block for one packing whose ids index the matrix rows directly: an
   * entry is 1 exactly when its row id is placed in its layer, and each
   * column's height is the tallest of the rows placed in it.
   */
  function KeyedBlock(n: nat, rows: seq<Keyed>, layers: seq<Layer>): (b: Block)
    requires PackedFrom(rows, layers)
    requires IdsInRange(layers, n)
    ensures HasShape(b.incidence, n, |layers|)
    ensures |b.heights| == |layers|
    ensures forall s, l :: 0 <= s < n && 0 <= l < |layers| ==>
      && (b.incidence[s][l] == 1 <==> s in Ids(layers[l]))
      && (b.incidence[s][l] == 0 <==> s !in Ids(layers[l]))
    ensures forall l :: 0 <= l < |layers| ==> IsLayerHeight(rows, Ids(layers[l]), b.heights[l])
    ensures forall l :: 0 <= l < |layers| ==> Describes(b, n, l, rows, layers[l])
  {
    var ids := LayerIds(layers);
    assert forall l :: 0 <= l < |layers| ==> ids[l] == Ids(layers[l]);
    assert RowsInRange(ids, n);
    Block(Fill(n, ids), LayerHeights(rows, layers))
  }

  /** `b`'s columns to the right of `a`'s, heights likewise. */
  function Beside(a: Block, b: Block): (r: Block)
    requires |a.incidence| == |b.incidence|
  {
    Block(HConcat(a.incidence, b.incidence), a.heights + b.heights)
  }

  lemma BesideKeepsLeft(a: Block, b: Block, n: nat, c: int, rows: seq<Keyed>, layer: Layer)
    requires HasShape(a.incidence, n, |a.heights|) && HasShape(b.incidence, n, |b.heights|)
    requires Describes(a, n, c, rows, layer)
    ensures Describes(Beside(a, b), n, c, rows, layer)
  {
    var r := Beside(a, b);
    assert r.heights[c] == a.heights[c];
    forall s | 0 <= s < n ensures r.incidence[s][c] == a.incidence[s][c] {
      assert r.incidence[s] == a.incidence[s] + b.incidence[s];
    }
  }

  lemma BesideShiftsRight(a: Block, b: Block, n: nat, c: int, rows: seq<Keyed>, layer: Layer)
    requires HasShape(a.incidence, n, |a.heights|) && HasShape(b.incidence, n, |b.heights|)
    requires Describes(b, n, c, rows, layer)
    ensures Describes(Beside(a, b), n, |a.heights| + c, rows, layer)
  {
    var r := Beside(a, b);
    assert r.heights[|a.heights| + c] == b.heights[c];
    forall s | 0 <= s < n ensures r.incidence[s][|a.heights| + c] == b.incidence[s][c] {
      assert r.incidence[s] == a.incidence[s] + b.incidence[s];
    }
  }

  // ---------------------------------------------------------------------
  // Global mode: rows are superitem ids, groups side by side

  /**
   * The first column of group `g`'s block: the number of layers of all groups
   * before it. Every earlier group's block ends at or before it.
   */
  function Offset(packed: seq<seq<Layer>>, g: nat): (o: nat)
    requires g <= |packed|
    ensures forall h {:trigger Offset(packed, h)} :: 0 <= h < g ==> Offset(packed, h) + |packed[h]| <= o
    decreases g
  {
    if g == 0 then 0 else Offset(packed, g - 1) + |packed[g - 1]|
  }

  /** The number of layers over all groups. */
  function TotalLayers(packed: seq<seq<Layer>>): nat
  {
    Offset(packed, |packed|)
  }

  /**
   * Layer `l` of group `g` is recorded in `b` at global column
   * `Offset(packed, g) + l`, over the group's rows keyed by superitem id.
   */
  ghost predicate HoldsLayer(b: Block, n: nat, groups: seq<seq<GroupRow>>, packed: seq<seq<Layer>>, g: int, l: int)
  {
    && 0 <= g < |groups| && g < |packed| && 0 <= l < |packed[g]|
    && Describes(b, n, Offset(packed, g) + l, ByIds(groups[g]), packed[g][l])
  }

  lemma KeepsEarlier(n: nat, groups: seq<seq<GroupRow>>, packed: seq<seq<Layer>>, front: Block, last: Block, g: int, l: int)
    requires HasShape(front.incidence, n, |front.heights|) && HasShape(last.incidence, n, |last.heights|)
    requires HoldsLayer(front, n, groups, packed, g, l)
    ensures HoldsLayer(Beside(front, last), n, groups, packed, g, l)
  {
    BesideKeepsLeft(front, last, n, Offset(packed, g) + l, ByIds(groups[g]), packed[g][l]);
  }

  lemma PlacesLast(n: nat, groups: seq<seq<GroupRow>>, packed: seq<seq<Layer>>, m: nat, front: Block, last: Block, l: int)
    requires 0 < m <= |groups| == |packed| && 0 <= l < |packed[m - 1]|
    requires HasShape(front.incidence, n, |front.heights|) && |front.heights| == Offset(packed, m - 1)
    requires HasShape(last.incidence, n, |last.heights|)
    requires Describes(last, n, l, ByIds(groups[m - 1]), packed[m - 1][l])
    ensures HoldsLayer(Beside(front, last), n, groups, packed, m - 1, l)
  {
    BesideShiftsRight(front, last, n, l, ByIds(groups[m - 1]), packed[m - 1][l]);
  }

  /**
   * The blocks of groups `0..m-1` side by side, extended by group `m - 1`'s
   * block: the earlier groups keep their columns and group `m - 1`'s layers
   * follow them.
   */
  lemma BesideExtends(n: nat, groups: seq<seq<GroupRow>>, packed: seq<seq<Layer>>, m: nat, front: Block, last: Block)
    requires 0 < m <= |groups| == |packed|
    requires HasShape(front.incidence, n, Offset(packed, m - 1)) && |front.heights| == Offset(packed, m - 1)
    requires forall g, l :: 0 <= g < m - 1 && 0 <= l < |packed[g]| ==> HoldsLayer(front, n, groups, packed, g, l)
    requires HasShape(last.incidence, n, |packed[m - 1]|) && |last.heights| == |packed[m - 1]|
    requires var rows, layers := ByIds(groups[m - 1]), packed[m - 1];
      forall l :: 0 <= l < |layers| ==> Describes(last, n, l, rows, layers[l])
    ensures HasShape(Beside(front, last).incidence, n, Offset(packed, m))
    ensures |Beside(front, last).heights| == Offset(packed, m)
    ensures forall g, l :: 0 <= g < m && 0 <= l < |packed[g]| ==> HoldsLayer(Beside(front, last), n, groups, packed, g, l)
  {
    forall g, l | 0 <= g < m && 0 <= l < |packed[g]|
      ensures HoldsLayer(Beside(front, last), n, groups, packed, g, l)
    {
      if g < m - 1 {
        KeepsEarlier(n, groups, packed, front, last, g, l);
      } else {
        PlacesLast(n, groups, packed, m, front, last, l);
      }
    }
  }

  /**
   * The blocks of groups `0..m-1` over all `n` superitem rows, placed side by
   * side. The matrix has `n` rows and one column per layer of those groups,
   * as many as the height vector has entries. Group `g`'s layers occupy the
   * contiguous columns after those of groups `0..g-1`: column
   * `Offset(packed, g) + l` holds layer `l` of group `g`, with a 1 exactly in
   * the rows of the superitem ids placed there, and the tallest height among
   * the group's rows placed there.
   */
  function SideBySide(n: nat, groups: seq<seq<GroupRow>>, packed: seq<seq<Layer>>, m: nat): (b: Block)
    requires m <= |groups| == |packed|
    requires forall g :: 0 <= g < |groups| ==> PackedFrom(ByIds(groups[g]), packed[g]) && IdsInRange(packed[g], n)
    ensures HasShape(b.incidence, n, Offset(packed, m))
    ensures |b.heights| == Offset(packed, m)
    ensures forall g, l :: 0 <= g < m && 0 <= l < |packed[g]| ==> HoldsLayer(b, n, groups, packed, g, l)
  {
    if m == 0 then
      Block(seq(n, _ => []), [])
    else
      var front := SideBySide(n, groups, packed, m - 1);
      var last := KeyedBlock(n, ByIds(groups[m - 1]), packed[m - 1]);
      BesideExtends(n, groups, packed, m, front, last);
      Beside(front, last)
  }

  /**
   * `warm_start`: the side-by-side blocks of a non-empty list of groups (an
   * empty list makes the final concatenation fail).
   */
  function WarmStart(n: nat, groups: seq<seq<GroupRow>>, packed: seq<seq<Layer>>): (b: Block)
    requires 0 < |groups| == |packed|
    requires forall g :: 0 <= g < |groups| ==> PackedFrom(ByIds(groups[g]), packed[g]) && IdsInRange(packed[g], n)
    ensures HasShape(b.incidence, n, TotalLayers(packed))
    ensures |b.heights| == TotalLayers(packed)
    ensures forall g, l :: 0 <= g < |groups| && 0 <= l < |packed[g]| ==> HoldsLayer(b, n, groups, packed, g, l)
  {
    SideBySide(n, groups, packed, |groups|)
  }

  /** A superitem id placed in layer `l` of group `g` has a 1 in that layer's global column. */
  lemma PlacedIsMarked(n: nat, groups: seq<seq<GroupRow>>, packed: seq<seq<Layer>>, g: nat, l: nat, id: int)
    requires 0 < |groups| == |packed|
    requires forall g :: 0 <= g < |groups| ==> PackedFrom(ByIds(groups[g]), packed[g]) && IdsInRange(packed[g], n)
    requires g < |groups| && l < |packed[g]| && id in Ids(packed[g][l])
    ensures 0 <= id < n
    ensures Offset(packed, g) + l < TotalLayers(packed)
    ensures WarmStart(n, groups, packed).incidence[id][Offset(packed, g) + l] == 1
  {
    var b := WarmStart(n, groups, packed);
    var k :| 0 <= k < |packed[g][l]| && Ids(packed[g][l])[k] == id;
    assert IdsInRange(packed[g], n);
    assert 0 <= packed[g][l][k].id < n;
    assert HoldsLayer(b, n, groups, packed, g, l);
    assert Describes(b, n, Offset(packed, g) + l, ByIds(groups[g]), packed[g][l]);
  }

  /**
   * Coverage under the packer's promise: if every row of every group is
   * placed in some layer of its group's packing, every superitem id of every
   * group has a 1 somewhere in its row of the global matrix.
   */
  lemma WarmStartCovers(n: nat, groups: seq<seq<GroupRow>>, packed: seq<seq<Layer>>)
    requires 0 < |groups| == |packed|
    requires forall g :: 0 <= g < |groups| ==> PackedFrom(ByIds(groups[g]), packed[g]) && IdsInRange(packed[g], n)
    requires forall g, j :: 0 <= g < |groups| && 0 <= j < |groups[g]| ==>
      exists l :: 0 <= l < |packed[g]| && groups[g][j].superitemId in Ids(packed[g][l])
    ensures forall g, j :: 0 <= g < |groups| && 0 <= j < |groups[g]| ==>
      0 <= groups[g][j].superitemId < n &&
      exists c :: 0 <= c < TotalLayers(packed) && WarmStart(n, groups, packed).incidence[groups[g][j].superitemId][c] == 1
  {
    forall g, j | 0 <= g < |groups| && 0 <= j < |groups[g]|
      ensures 0 <= groups[g][j].superitemId < n
      ensures exists c :: 0 <= c < TotalLayers(packed) && WarmStart(n, groups, packed).incidence[groups[g][j].superitemId][c] == 1
    {
      var l :| 0 <= l < |packed[g]| && groups[g][j].superitemId in Ids(packed[g][l]);
      PlacedIsMarked(n, groups, packed, g, l, groups[g][j].superitemId);
    }
  }

  // ---------------------------------------------------------------------
  // The single-superitem fallback

  /** Labels usable as row positions of a group. */
  ghost predicate NamesInRange(group: seq<GroupRow>)
  {
    forall j :: 0 <= j < |group| ==> 0 <= group[j].name < |group|
  }

  /** The heights of the first `m` rows written at their labels in row order, over `o`. */
  function HeightsOfFirst(o: seq<int>, group: seq<GroupRow>, m: nat): (r: seq<int>)
    requires NamesInRange(group) && |o| == |group| && m <= |group|
    ensures |r| == |o|
  {
    if m == 0 then o
    else HeightsOfFirst(o, group, m - 1)[group[m - 1].name := group[m - 1].si.height]
  }

  /** A position none of the first `m` rows is labelled with keeps its value. */
  lemma {:induction false} UnwrittenKept(o: seq<int>, group: seq<GroupRow>, m: nat, p: int)
    requires NamesInRange(group) && |o| == |group| && m <= |group|
    requires 0 <= p < |o| && forall j :: 0 <= j < m ==> group[j].name != p
    ensures HeightsOfFirst(o, group, m)[p] == o[p]
  {
    if m > 0 {
      UnwrittenKept(o, group, m - 1, p);
    }
  }

  /** The last of the first `m` rows carrying a label leaves its height there. */
  lemma {:induction false} LastHeightWins(o: seq<int>, group: seq<GroupRow>, m: nat, j: nat)
    requires NamesInRange(group) && |o| == |group| && j < m <= |group|
    requires forall j' :: j < j' < m ==> group[j'].name != group[j].name
    ensures HeightsOfFirst(o, group, m)[group[j].name] == group[j].si.height
  {
    if j < m - 1 {
      LastHeightWins(o, group, m - 1, j);
    }
  }

  /**
   * `single_item_layers`: the identity matrix, each row alone in its own
   * layer, and the heights written at each row's label. A position no row is
   * labelled with keeps height 0; otherwise it gets the height of the last
   * row carrying that label. When the labels are exactly the positions
   * `0..n-1`, the height vector is the rows' own heights in order.
   */
  function SingleItemLayers(group: seq<GroupRow>): (b: Block)
    requires NamesInRange(group)
    ensures HasShape(b.incidence, |group|, |group|)
    ensures forall i, j :: 0 <= i < |group| && 0 <= j < |group| ==> b.incidence[i][j] == (if i == j then 1 else 0)
    ensures |b.heights| == |group|
    ensures forall p :: 0 <= p < |group| && (forall j :: 0 <= j < |group| ==> group[j].name != p) ==> b.heights[p] == 0
    ensures forall j :: 0 <= j < |group| && (forall j' :: j < j' < |group| ==> group[j'].name != group[j].name) ==>
      b.heights[group[j].name] == group[j].si.height
    ensures (forall j :: 0 <= j < |group| ==> group[j].name == j) ==>
      forall j :: 0 <= j < |group| ==> b.heights[j] == group[j].si.height
  {
    var zeros := seq(|group|, _ => 0);
    var heights := HeightsOfFirst(zeros, group, |group|);
    assert forall p :: 0 <= p < |group| && (forall j :: 0 <= j < |group| ==> group[j].name != p) ==> heights[p] == 0
    by {
      forall p | 0 <= p < |group| && (forall j :: 0 <= j < |group| ==> group[j].name != p) ensures heights[p] == 0 {
        UnwrittenKept(zeros, group, |group|, p);
      }
    }
    assert forall j :: 0 <= j < |group| && (forall j' :: j < j' < |group| ==> group[j'].name != group[j].name) ==>
      heights[group[j].name] == group[j].si.height
    by {
      forall j | 0 <= j < |group| && (forall j' :: j < j' < |group| ==> group[j'].name != group[j].name)
        ensures heights[group[j].name] == group[j].si.height
      {
        LastHeightWins(zeros, group, |group|, j);
      }
    }
    Block(Eye(|group|), heights)
  }

  // ---------------------------------------------------------------------
  // Per-group mode: rows are positions inside each group

  /**
   * The id map of a group: each superitem id to the label of the last row
   * carrying it, and no other keys.
   */
  function RectIds(group: seq<GroupRow>): (ids: map<int, int>)
    ensures forall id :: id in ids <==> exists j :: 0 <= j < |group| && group[j].superitemId == id
    ensures forall j :: 0 <= j < |group| && (forall j' :: j < j' < |group| ==> group[j'].superitemId != group[j].superitemId) ==>
      ids[group[j].superitemId] == group[j].name
  {
    var ids := IdsOfFirst(group, |group|);
    assert forall j :: 0 <= j < |group| && (forall j' :: j < j' < |group| ==> group[j'].superitemId != group[j].superitemId) ==>
      ids[group[j].superitemId] == group[j].name
    by {
      forall j | 0 <= j < |group| && (forall j' :: j < j' < |group| ==> group[j'].superitemId != group[j].superitemId)
        ensures ids[group[j].superitemId] == group[j].name
      {
        LastWriterWins(group, |group|, j);
      }
    }
    ids
  }

  /** The id map of the first `m` rows of a group: its keys are their superitem ids. */
  function IdsOfFirst(group: seq<GroupRow>, m: nat): (ids: map<int, int>)
    requires m <= |group|
    ensures forall id :: id in ids <==> exists j :: 0 <= j < m && group[j].superitemId == id
  {
    if m == 0 then map[]
    else IdsOfFirst(group, m - 1)[group[m - 1].superitemId := group[m - 1].name]
  }

  /** A row no later row of the first `m` shares its id with owns that id's entry. */
  lemma {:induction false} LastWriterWins(group: seq<GroupRow>, m: nat, j: nat)
    requires j < m <= |group|
    requires forall j' :: j < j' < m ==> group[j'].superitemId != group[j].superitemId
    ensures group[j].superitemId in IdsOfFirst(group, m)
    ensures IdsOfFirst(group, m)[group[j].superitemId] == group[j].name
  {
    if j < m - 1 {
      LastWriterWins(group, m - 1, j);
    }
  }

  /** Every placed id is a key of `ids` and maps below `n`. */
  ghost predicate MapsInto(ids: map<int, int>, layers: seq<Layer>, n: nat)
  {
    forall l, k :: 0 <= l < |layers| && 0 <= k < |layers[l]| ==> layers[l][k].id in ids && 0 <= ids[layers[l][k].id] < n
  }

  /** Some id placed in `layer` is sent to row `i` by the id map. */
  ghost predicate Hits(ids: map<int, int>, layer: Layer, i: int)
  {
    exists k :: 0 <= k < |layer| && layer[k].id in ids && ids[layer[k].id] == i
  }

  /** The local rows a layer occupies, through the id map. */
  function LocalRows(ids: map<int, int>, layer: Layer): (rows: seq<int>)
    requires forall k :: 0 <= k < |layer| ==> layer[k].id in ids
    ensures forall i :: i in rows <==> Hits(ids, layer, i)
  {
    var rows := seq(|layer|, k requires 0 <= k < |layer| => ids[layer[k].id]);
    assert forall i :: Hits(ids, layer, i) ==> i in rows by {
      forall i | Hits(ids, layer, i) ensures i in rows {
        var k :| 0 <= k < |layer| && layer[k].id in ids && ids[layer[k].id] == i;
        assert rows[k] == i;
      }
    }
    rows
  }

  /**
   * A group's packing is usable in per-group mode: it is fit for the group's
   * rows, every placed id maps to a label inside the group's matrix, and
   * when singleton layers are added every label is a position of the group.
   */
  ghost predicate GroupPackable(group: seq<GroupRow>, layers: seq<Layer>, addSingle: bool)
  {
    && PackedLocally(group, layers)
    && (addSingle && |group| > 1 ==> NamesInRange(group))
  }

  ghost predicate PackedLocally(group: seq<GroupRow>, layers: seq<Layer>)
  {
    && PackedFrom(ByIds(group), layers)
    && MapsInto(RectIds(group), layers, |group|)
  }

  /**
   * Column `c` of `b` records `layer` over `n` local rows reached through the
   * id map `ids`: an entry is 1 exactly when the map sends some id placed in
   * the layer to that row, and the column's height is the tallest of `rows`
   * placed there.
   */
  ghost predicate DescribesMapped(b: Block, ids: map<int, int>, n: nat, rows: seq<Keyed>, c: int, layer: Layer)
  {
    && 0 <= c < |b.heights|
    && |b.incidence| == n
    && (forall i :: 0 <= i < n ==>
          && c < |b.incidence[i]|
          && (b.incidence[i][c] == 1 <==> Hits(ids, layer, i))
          && (b.incidence[i][c] == 0 <==> !Hits(ids, layer, i)))
    && IsLayerHeight(rows, Ids(layer), b.heights[c])
  }

  /** Column `c` of `b` records `layer` over the group's rows, through the group's id map. */
  ghost predicate DescribesLocal(b: Block, group: seq<GroupRow>, c: int, layer: Layer)
  {
    DescribesMapped(b, RectIds(group), |group|, ByIds(group), c, layer)
  }

  /** The number of singleton columns `warm_start_groups` appends to a group. */
  function SingletonColumns(group: seq<GroupRow>, addSingle: bool): nat
  {
    if addSingle && |group| > 1 then |group| else 0
  }

  /** Every layer as the list of local rows the id map sends its ids to. */
  function LocalLayers(ids: map<int, int>, n: nat, layers: seq<Layer>): (local: seq<seq<int>>)
    requires MapsInto(ids, layers, n)
    ensures |local| == |layers|
    ensures RowsInRange(local, n)
    ensures forall l, i :: 0 <= l < |layers| ==> (i in local[l] <==> Hits(ids, layers[l], i))
  {
    var local := seq(|layers|, l requires 0 <= l < |layers| => LocalRows(ids, layers[l]));
    assert forall l :: 0 <= l < |layers| ==> local[l] == LocalRows(ids, layers[l]);
    local
  }

  /**
   * The packed part of a block in per-group mode: `n` local rows, one column
   * per layer, entries through the id map and heights over `rows`.
   */
  function LocalBlock(ids: map<int, int>, n: nat, rows: seq<Keyed>, layers: seq<Layer>): (b: Block)
    requires PackedFrom(rows, layers)
    requires MapsInto(ids, layers, n)
    ensures HasShape(b.incidence, n, |layers|)
    ensures |b.heights| == |layers|
    ensures forall l :: 0 <= l < |layers| ==> DescribesMapped(b, ids, n, rows, l, layers[l])
  {
    Block(Fill(n, LocalLayers(ids, n, layers)), LayerHeights(rows, layers))
  }

  lemma BesideKeepsLeftMapped(a: Block, b: Block, ids: map<int, int>, n: nat, rows: seq<Keyed>, c: int, layer: Layer)
    requires HasShape(a.incidence, n, |a.heights|) && HasShape(b.incidence, n, |b.heights|)
    requires DescribesMapped(a, ids, n, rows, c, layer)
    ensures DescribesMapped(Beside(a, b), ids, n, rows, c, layer)
  {
    var r := Beside(a, b);
    assert r.heights[c] == a.heights[c];
    forall i | 0 <= i < n ensures r.incidence[i][c] == a.incidence[i][c] {
      assert r.incidence[i] == a.incidence[i] + b.incidence[i];
    }
  }

  /**
   * One group's entry of `warm_start_groups`: `|group|` rows; the packed
   * layers first, each recorded through the group's id map, then, when
   * singletons are requested and the group has more than one row, exactly
   * the columns and heights of `single_item_layers`.
   */
  function GroupBlock(group: seq<GroupRow>, layers: seq<Layer>, addSingle: bool): (b: Block)
    requires GroupPackable(group, layers, addSingle)
    ensures HasShape(b.incidence, |group|, |b.heights|)
    ensures |b.heights| == |layers| + SingletonColumns(group, addSingle)
    ensures forall l :: 0 <= l < |layers| ==> DescribesLocal(b, group, l, layers[l])
    ensures addSingle && |group| > 1 ==>
      && (forall i, j :: 0 <= i < |group| && 0 <= j < |group| ==>
            b.incidence[i][|layers| + j] == SingleItemLayers(group).incidence[i][j])
      && b.heights[|layers|..] == SingleItemLayers(group).heights
  {
    var packedPart := LocalBlock(RectIds(group), |group|, ByIds(group), layers);
    if addSingle && |group| > 1 then
      var single := SingleItemLayers(group);
      var b := Beside(packedPart, single);
      assert forall l :: 0 <= l < |layers| ==> DescribesLocal(b, group, l, layers[l]) by {
        forall l | 0 <= l < |layers| ensures DescribesLocal(b, group, l, layers[l]) {
          BesideKeepsLeftMapped(packedPart, single, RectIds(group), |group|, ByIds(group), l, layers[l]);
        }
      }
      assert forall i :: 0 <= i < |group| ==> b.incidence[i] == packedPart.incidence[i] + single.incidence[i];
      b
    else
      packedPart
  }

  /** No two rows of the group carry the same superitem id. */
  ghost predicate DistinctIds(group: seq<GroupRow>)
  {
    forall j, j' :: 0 <= j < j' < |group| ==> group[j].superitemId != group[j'].superitemId
  }

  /**
   * When a group's superitem ids are distinct and its labels are its
   * positions, the id map sends an id placed in a layer to row `i` exactly
   * when row `i`'s own superitem id is placed there.
   */
  lemma HitsOwnRow(group: seq<GroupRow>, layer: Layer, i: nat)
    requires DistinctIds(group)
    requires forall j :: 0 <= j < |group| ==> group[j].name == j
    requires i < |group|
    ensures Hits(RectIds(group), layer, i) <==> group[i].superitemId in Ids(layer)
  {
    var ids := RectIds(group);
    assert forall j :: 0 <= j < |group| ==> ids[group[j].superitemId] == j;
    if Hits(ids, layer, i) {
      var k :| 0 <= k < |layer| && layer[k].id in ids && ids[layer[k].id] == i;
      var j :| 0 <= j < |group| && group[j].superitemId == layer[k].id;
      assert j == i;
      assert Ids(layer)[k] == group[i].superitemId;
    }
    if group[i].superitemId in Ids(layer) {
      var k :| 0 <= k < |layer| && Ids(layer)[k] == group[i].superitemId;
      assert layer[k].id in ids && ids[layer[k].id] == i;
    }
  }

  /**
   * Per-group mode agrees with the global reading: when a group's superitem
   * ids are distinct and its labels are its positions, row `i` of a packed
   * column is 1 exactly when row `i`'s own superitem is placed in that layer.
   */
  lemma LocalRowIsOwnSuperitem(group: seq<GroupRow>, layers: seq<Layer>, addSingle: bool, l: nat, i: nat)
    requires GroupPackable(group, layers, addSingle)
    requires DistinctIds(group)
    requires forall j :: 0 <= j < |group| ==> group[j].name == j
    requires l < |layers| && i < |group|
    ensures GroupBlock(group, layers, addSingle).incidence[i][l] == 1 <==> group[i].superitemId in Ids(layers[l])
    ensures GroupBlock(group, layers, addSingle).incidence[i][l] == 0 <==> group[i].superitemId !in Ids(layers[l])
  {
    assert DescribesLocal(GroupBlock(group, layers, addSingle), group, l, layers[l]);
    HitsOwnRow(group, layers[l], i);
  }

  /** The three ragged lists `warm_start_groups` returns. */
  datatype GroupStarts = GroupStarts(incidences: seq<Matrix>, heights: seq<seq<int>>, ids: seq<map<int, int>>)

  /**
   * `warm_start_groups`: one matrix, one height vector and one id map per
   * group, in group order; group `g`'s matrix has a row per row of the group
   * and a column per packed layer plus its singleton columns, the id map is
   * the group's, and its content is that group's block.
   */
  function WarmStartGroups(groups: seq<seq<GroupRow>>, packed: seq<seq<Layer>>, addSingle: bool): (r: GroupStarts)
    requires |groups| == |packed|
    requires forall g :: 0 <= g < |groups| ==> GroupPackable(groups[g], packed[g], addSingle)
    ensures |r.incidences| == |r.heights| == |r.ids| == |groups|
    ensures forall g :: 0 <= g < |groups| ==>
      && HasShape(r.incidences[g], |groups[g]|, |packed[g]| + SingletonColumns(groups[g], addSingle))
      && |r.heights[g]| == |packed[g]| + SingletonColumns(groups[g], addSingle)
      && r.ids[g] == RectIds(groups[g])
      && Block(r.incidences[g], r.heights[g]) == GroupBlock(groups[g], packed[g], addSingle)
  {
    var blocks := seq(|groups|, g requires 0 <= g < |groups| => GroupBlock(groups[g], packed[g], addSingle));
    GroupStarts(
      seq(|groups|, g requires 0 <= g < |groups| => blocks[g].incidence),
      seq(|groups|, g requires 0 <= g < |groups| => blocks[g].heights),
      seq(|groups|, g requires 0 <= g < |groups| => RectIds(groups[g])))
  }

  /**
   * The fallback the singleton columns guarantee: when a group's labels are
   * its positions and it has more than one row, each row `i` sits alone in
   * appended column `|layers| + i`, whose height is the row's own height.
   */
  lemma SingletonFallback(group: seq<GroupRow>, layers: seq<Layer>, i: nat)
    requires GroupPackable(group, layers, true)
    requires |group| > 1
    requires forall j :: 0 <= j < |group| ==> group[j].name == j
    requires i < |group|
    ensures |layers| + i < |GroupBlock(group, layers, true).heights|
    ensures forall i' :: 0 <= i' < |group| ==>
      GroupBlock(group, layers, true).incidence[i'][|layers| + i] == (if i' == i then 1 else 0)
    ensures GroupBlock(group, layers, true).heights[|layers| + i] == group[i].si.height
  {
    var b := GroupBlock(group, layers, true);
    var single := SingleItemLayers(group);
    assert b.heights[|layers|..][i] == single.heights[i];
  }

  // ---------------------------------------------------------------------
  // Flat mode: all superitems packed together

  /**
   * `warm_start_no_groups`: one packing of the whole table, rows indexed by
   * the table's labels. The matrix has a row per table row and a column per
   * layer; an entry is 1 exactly when that label is placed in that layer, and
   * each height is the tallest of the table rows placed there.
   */
  function WarmStartNoGroups(table: seq<Entry>, layers: seq<Layer>): (b: Block)
    requires PackedFrom(ByNames(table), layers)
    requires IdsInRange(layers, |table|)
    ensures HasShape(b.incidence, |table|, |layers|)
    ensures |b.heights| == |layers|
    ensures forall l :: 0 <= l < |layers| ==> Describes(b, |table|, l, ByNames(table), layers[l])
  {
    KeyedBlock(|table|, ByNames(table), layers)
  }
}
