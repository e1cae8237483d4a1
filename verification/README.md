# Warm start for the layer-based pallet loading model

This project models `src/warm_start.py` of a 3D bin-packing solver. The
solver packs superitems onto pallets in horizontal layers. Superitems are
rigid stacks of base items with a fixed footprint and height. Its
column-generation master problem is seeded with a *warm start*: an initial
set of layers, given as a 0/1 superitem × layer incidence matrix plus one
height per layer.

The model covers both halves of the module:

* **Grouping** (`get_initial_groups`), in modules `HeightBands`, `Dominance`
  and `InitialGroups`:
  - the sorted distinct heights of the superitem table are reduced to
    representative heights; a height is dropped when its tolerance reach set
    is contained in its predecessor's;
  - each representative `h` collects the band of rows whose height lies in
    `[h, h + tol]`;
  - the band is sorted by descending `(num_items, stacked)` and relabelled
    `0..n-1`, and the old table label becomes `superitem_id`;
  - every row sharing a base item with a row sorted above it is then dropped.
* **Assembly** (`warm_start`, `warm_start_groups`, `warm_start_no_groups`,
  `single_item_layers`), in modules `Incidence` and `Assembly`:
  - the layers the 2D packer returns become incidence columns;
  - each column's height is the tallest superitem placed in it;
  - per-group blocks are laid side by side, or, in per-group mode, kept
    separate, with optional identity "singleton" columns.

`Superitems` holds the table rows. An item composition is a tree
(`ItemTree`), and `Flatten` lists its leaf ids. `WorkedExample` works through a
two-group instance of `warm_start`, with the groups given directly, and
derives its exact output.

The model follows the code as written, including where it does less or
more than its names suggest:

* The dominance filter drops a later row when it shares **any** base item
  with an earlier row. That earlier row may itself have been dropped. A
  "dominated duplicate" reading would be a subset test, but the code tests
  intersection.
  The model proves what the code does: survivors are pairwise disjoint, and
  a sorted row survives exactly when no row above it overlaps it.
* The redundancy scan compares each height only with its immediate
  predecessor in the original list. The model proves coverage: every row
  lies in some band when `tol >= 0`. It does not claim the representative
  set is minimal.
* Coverage of the final matrix ("every superitem id has a 1 somewhere")
  depends on the packer placing every rectangle. That code is not part of
  this model, so `WarmStartCovers` takes it as a hypothesis. A row dropped
  by the dominance filter from every group whose band contains it gets no 1
  from `warm_start`. Bands can overlap, so a row dropped in one group may
  still be placed through another.

## Model

| member | source | states |
|---|---|---|
| Superitems.Flatten | src/warm_start.py:29-30 | the flattened item list has exactly the leaf ids of the composition tree as members; `NumItems` is its length |
| HeightBands.UniqueHeights | src/warm_start.py:9 | strictly ascending, and `x` occurs in it exactly when some table row has height `x` |
| HeightBands.KeptHeights | src/warm_start.py:10-16 | the representatives are a strictly ascending sub-list of the distinct heights, non-empty iff the table is, start with the smallest height, and keep a later height exactly when its reach set is not a subset of its original predecessor's |
| HeightBands.ReachChainsBack | src/warm_start.py:10-16 | every height's reach set is contained in the reach set of some kept height at or before it |
| HeightBands.EveryHeightBanded | src/warm_start.py:10-25 | with `tol >= 0` every distinct height lies in `[h, h + tol]` for some kept `h` |
| HeightBands.Band | src/warm_start.py:21-24 | a row is in the band of `h` exactly when it is a table row with height in `[h, h + tol]`, and each such row occurs in the band exactly as often as in the table (the multisets agree on banded rows and the band has nothing else) |
| HeightBands.Bands | src/warm_start.py:18-25 | one band per kept height, in order, each being that height's band, and none empty when `tol >= 0` |
| HeightBands.EveryRowBanded | src/warm_start.py:9-25 | with `tol >= 0` every table row belongs to at least one band |
| Dominance.SortEntries | src/warm_start.py:31-32 | the result is a permutation (equal multisets) sorted descending by `(num_items, stacked)` |
| Dominance.InsertKeepsSorted | src/warm_start.py:31-32 | inserting into a descending sequence keeps it descending |
| Dominance.SortedGroup | src/warm_start.py:31-33 | after `reset_index` the labels are the positions `0..n-1`, the rows are sorted descending, and their `(superitem_id, data)` pairs are a permutation of the band's `(label, data)` rows |
| Dominance.MarkedBy | src/warm_start.py:36-41 | position `k` is marked exactly when it lies after `i` and its row contains one of the given items |
| Dominance.IndexesToRemove | src/warm_start.py:34-41 | position `k` is collected exactly when some row at or after `i` and before `k` shares a base item with row `k`, whether or not that row was itself collected |
| Dominance.DropNames | src/warm_start.py:43 | a row survives exactly when its label is not in the drop set; an undropped first row stays first |
| Dominance.DropKeepsAscending | src/warm_start.py:43 | dropping by label keeps ascending labels ascending (no reset) |
| Dominance.Survivors | src/warm_start.py:34-43 | each survivor is the sorted row its label names, labels ascend, and row `k` survives iff no row above it overlaps it |
| Dominance.CleanGroup | src/warm_start.py:27-43 | a cleaned group is the sorted band minus exactly the rows overlapping an earlier sorted row, with the sorted labels kept in ascending order |
| Dominance.CleanGroupKeepsHead | src/warm_start.py:34-43 | a non-empty band keeps its top-ranked row, first, with label 0 |
| Dominance.CleanGroupDisjoint | src/warm_start.py:34-43 | no two surviving rows share a base item |
| Dominance.CleanGroupSorted | src/warm_start.py:31-43 | survivors stay sorted descending by `(num_items, stacked)` |
| Dominance.CleanGroupFromBand | src/warm_start.py:29-43 | every survivor's `(superitem_id, data)` is a row of the band, so `superitem_id` is its original table label |
| InitialGroups.CleanBandWellFormed | src/warm_start.py:27-43 | the cleaned form of a non-empty band is non-empty, starts with label 0, stays sorted, has pairwise disjoint rows, and holds only table rows of that band |
| InitialGroups.InitialGroups | src/warm_start.py:8-45 | one group per representative height, in order, each the cleaned band of that height; with `tol >= 0` every group is non-empty, starts with label 0, stays sorted descending, has pairwise disjoint rows, and holds only table rows whose height lies in its representative's band |
| Incidence.Fill | src/warm_start.py:89-95 | an `n × L` matrix whose entry `(i, l)` is 1 exactly when `i` is listed in layer `l` and 0 otherwise |
| Assembly.LayerHeight | src/warm_start.py:96 | the height is that of some row placed in the layer and at least that of every row placed there |
| Assembly.KeyedBlock | src/warm_start.py:89-96 | one packing's block: `n` rows, a column per layer, 1 exactly at placed ids, and each height the maximum over the layer's occupants |
| Assembly.SideBySide | src/warm_start.py:98-102 | groups `0..m-1` laid side by side: `n` rows, `Offset(m)` columns and heights, and layer `l` of group `g` at column `Offset(g) + l` |
| Assembly.BesideExtends | src/warm_start.py:101-102 | appending a group's block keeps every earlier group's columns and puts the new group's layers right after them |
| Assembly.WarmStart | src/warm_start.py:80-103 | `num_superitems` rows, as many columns and heights as layers over all groups, each group a contiguous block after the earlier ones, entries 1 exactly at placed superitem ids, heights the per-layer maxima |
| Assembly.PlacedIsMarked | src/warm_start.py:91-95 | a superitem id placed in layer `l` of group `g` has a 1 in global column `Offset(g) + l` |
| Assembly.WarmStartCovers | src/warm_start.py:80-103 | if the packer places every row of every group, every superitem id of every group has a 1 in some column |
| Assembly.SingleItemLayers | src/warm_start.py:106-111 | the identity matrix; position `p` gets the height of the last row labelled `p`, or 0 if none is; with labels `0..n-1`, entry `i` is row `i`'s height |
| Assembly.LastHeightWins | src/warm_start.py:109-110 | the last of the rows carrying a label leaves its height at that position |
| Assembly.RectIds | src/warm_start.py:118-121 | the id map's keys are exactly the group's superitem ids, and each maps to the label of the last row carrying it |
| Assembly.LastWriterWins | src/warm_start.py:119-121 | a row that no later row shares an id with owns that id's entry in the map |
| Assembly.LocalRows | src/warm_start.py:129-131 | the local rows of a layer are exactly the rows the id map sends a placed id to |
| Assembly.LocalBlock | src/warm_start.py:125-132 | the packed part of a group's block: as many rows as the group, a column per layer, 1 exactly at the rows the id map sends a placed id to, heights the per-layer maxima |
| Assembly.GroupBlock | src/warm_start.py:119-137 | a group's block has `len(group)` rows; the packed layers come first, recorded through the id map, and when `add_single` and the group has more than one row, the appended columns and heights are exactly `single_item_layers` |
| Assembly.HitsOwnRow | src/warm_start.py:118-131 | with distinct ids and labels equal to positions, the id map sends a placed id to row `i` iff row `i`'s own superitem is placed |
| Assembly.LocalRowIsOwnSuperitem | src/warm_start.py:118-132 | under the same conditions a group's packed column has a 1 in row `i` exactly when row `i`'s superitem is placed in that layer |
| Assembly.WarmStartGroups | src/warm_start.py:114-143 | three lists with one entry per group; each matrix has `len(group)` rows and `layers + n` columns when singletons are added to a group of `n > 1` rows, else `layers`; the id map is the group's |
| Assembly.SingletonFallback | src/warm_start.py:134-137 | with labels `0..n-1` and `n > 1`, appended column `layers + i` is the unit vector at row `i` with row `i`'s height |
| Assembly.WarmStartNoGroups | src/warm_start.py:146-162 | one row per table row and one column per layer, 1 exactly where a row's label is placed, heights the maximum over the rows whose label is placed |
| WorkedExample.TwoGroupsExample | src/warm_start.py:80-103 | two groups of heights 5, 5 and 8 packed into one layer each give the matrix `[[1,0],[1,0],[0,1]]` and heights `[5, 8]` |

## Left out

- `maxrects` and the `rectpack` packer (src/warm_start.py:48-77) are foreign code. Their output is an input parameter: a list of layers of `(id, x, y)` placements. Every assembler requires that each layer is non-empty and that each placed id belongs to a row of the group or table. Under that requirement `max()` over an empty selection, which would give NaN, cannot arise.
- `utils.flatten` is not part of this model. An item composition is assumed to be a tree of base item ids, and `Flatten` lists the leaves depth first with repetitions, so `num_items` counts repeated leaves.
- pandas and numpy mechanics are modelled by their results only: `.loc`, `isin`, `reset_index`, `iterrows`, `dtype=int` and `np.concatenate`. Heights are unbounded integers; float heights and their truncation by `dtype=int` are not modelled.
- Assembly.WarmStart: requires a non-empty list of groups, because `np.concatenate` raises on an empty list.
- Assembly.WarmStart, Assembly.WarmStartNoGroups: require every placed id to be a row index in `[0, n)`. Negative numpy indices, which would wrap around, are excluded rather than modelled.
- Assembly.SingleItemLayers, Assembly.GroupBlock: a row label is used as a position. The model requires labels in `[0, len(group))` whenever singleton columns are built, and `GroupPackable` asks the id map to send placed ids below `len(group)`. Groups from `get_initial_groups` can have label gaps after dropped rows, and then the source indexes out of range; the model does not take that error path. The "entry `i` is row `i`'s height" form holds only when labels are `0..n-1`.
- Dominance.SortEntries: states only "a permutation sorted descending by `(num_items, stacked)`". The stable order among equal keys is not claimed.
- HeightBands.KeptHeights: the reach-set scan is stated as the code writes it, comparing each height with its original predecessor. Minimality of the representative set is not claimed, because the code does not guarantee it.
- Assembly.WarmStartCovers: coverage is conditional on the packer placing every row. A row dropped by the dominance filter from every group whose band contains it gets no 1 from `warm_start`; bands can overlap, so a row dropped in one group may still be placed through another.
- Placement coordinates `x`, `y` and rectangle footprints are carried but not used. No geometric non-overlap is modelled, since that is the packer's concern.
