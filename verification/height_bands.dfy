/**
 * Height banding: the sorted distinct heights of the superitem table, the
 * "reach set" of each height, the representative heights that survive the
 * redundancy scan, and the band of table rows each representative collects.
 */
module HeightBands {
  import opened Superitems

  ghost predicate StrictlyAscending(u: seq<int>)
  {
    forall i, j :: 0 <= i < j < |u| ==> u[i] < u[j]
  }

  /** Inserts `h` into a strictly ascending list unless it is already there. */
  function InsertHeight(u: seq<int>, h: int): (r: seq<int>)
    requires StrictlyAscending(u)
    ensures StrictlyAscending(r)
    ensures forall x :: x in r <==> x in u || x == h
  {
    if u == [] then [h]
    else if h < u[0] then [h] + u
    else if h == u[0] then u
    else
      var rest := InsertHeight(u[1..], h);
      assert forall i :: 0 <= i < |rest| ==> rest[i] in rest && (rest[i] in u[1..] || rest[i] == h);
      [u[0]] + rest
  }

  /**
   * The distinct heights of the table in ascending order: each height once,
   * and no height that no row has.
   */
  function UniqueHeights(table: seq<Entry>): (u: seq<int>)
    ensures StrictlyAscending(u)
    ensures forall x :: x in u <==> exists e :: e in table && e.si.height == x
  {
    if table == [] then []
    else
      var last := table[|table| - 1];
      var u := InsertHeight(UniqueHeights(table[..|table| - 1]), last.si.height);
      assert table == table[..|table| - 1] + [last];
      u
  }

  /** The reach set of `u[i]`: the heights from position `i` on within `tol` of it. */
  function Reach(u: seq<int>, i: nat, tol: int): set<int>
    requires i < |u|
  {
    set k | k in u[i..] && k - u[i] <= tol
  }

  /**
   * Position `k` is dropped by the scan over consecutive pairs: its reach set
   * is contained in that of its immediate predecessor. The pairs are those of
   * the original list, so the predecessor counts whether or not it was itself
   * dropped, and the first height is never a second element.
   */
  predicate Redundant(u: seq<int>, tol: int, k: nat)
    requires 0 < k < |u|
  {
    Reach(u, k, tol) <= Reach(u, k - 1, tol)
  }

  /** The heights at positions `k..` that the scan keeps, in order. */
  function KeptFrom(u: seq<int>, tol: int, k: nat): (r: seq<int>)
    requires 0 < k
    requires StrictlyAscending(u)
    ensures forall x :: x in r <==> exists j :: k <= j < |u| && u[j] == x && !Redundant(u, tol, j)
    ensures forall i :: 0 <= i < |r| ==> k < |u| && u[k] <= r[i]
    ensures StrictlyAscending(r)
    decreases |u| - k
  {
    if k >= |u| then []
    else
      var rest := KeptFrom(u, tol, k + 1);
      assert k + 1 < |u| ==> u[k] < u[k + 1];
      if Redundant(u, tol, k) then rest
      else [u[k]] + rest
  }

  /**
   * The representative heights: a strictly ascending sub-list of the distinct
   * heights that always starts with the smallest one, and keeps any other
   * height exactly when its reach set is not inside its predecessor's.
   */
  function KeptHeights(u: seq<int>, tol: int): (r: seq<int>)
    requires StrictlyAscending(u)
    ensures |u| > 0 <==> |r| > 0
    ensures |u| > 0 ==> r[0] == u[0]
    ensures StrictlyAscending(r)
    ensures forall h :: h in r ==> h in u
    ensures forall k :: 0 < k < |u| ==> (u[k] in r <==> !Redundant(u, tol, k))
  {
    if u == [] then []
    else
      var rest := KeptFrom(u, tol, 1);
      assert forall i :: 0 <= i < |rest| ==> u[0] < rest[i];
      assert forall k :: 0 < k < |u| ==> u[k] != u[0];
      [u[0]] + rest
  }

  /** The rows whose height lies in `[h, h + tol]`, in table order. */
  function Band(table: seq<Entry>, h: int, tol: int): (r: seq<Entry>)
    ensures forall e :: e in r <==> e in table && h <= e.si.height <= h + tol
    ensures forall e :: multiset(r)[e] == if h <= e.si.height <= h + tol then multiset(table)[e] else 0
    ensures |r| <= |table|
  {
    if table == [] then []
    else
      var rest := Band(table[1..], h, tol);
      assert table == [table[0]] + table[1..];
      var r := if h <= table[0].si.height <= h + tol then [table[0]] + rest else rest;
      assert multiset(table) == multiset{table[0]} + multiset(table[1..]);
      assert multiset(r) == (if h <= table[0].si.height <= h + tol then multiset{table[0]} else multiset{}) + multiset(rest);
      r
  }

  /** The band starting at a height some row has contains that row. */
  lemma BandOfTableHeight(table: seq<Entry>, h: int, tol: int)
    requires tol >= 0 && h in UniqueHeights(table)
    ensures |Band(table, h, tol)| > 0
  {
    var e :| e in table && e.si.height == h;
    assert e in Band(table, h, tol);
  }

  /** One band per height of `starts`, in the same order. */
  function BandsAt(table: seq<Entry>, starts: seq<int>, tol: int): (bands: seq<seq<Entry>>)
    requires forall h :: h in starts ==> h in UniqueHeights(table)
    ensures |bands| == |starts|
    ensures forall g :: 0 <= g < |starts| ==> bands[g] == Band(table, starts[g], tol)
    ensures tol >= 0 ==> forall g :: 0 <= g < |bands| ==> |bands[g]| > 0
  {
    assert tol >= 0 ==> forall g :: 0 <= g < |starts| ==> |Band(table, starts[g], tol)| > 0 by {
      forall g | tol >= 0 && 0 <= g < |starts| ensures |Band(table, starts[g], tol)| > 0 {
        BandOfTableHeight(table, starts[g], tol);
      }
    }
    seq(|starts|, g requires 0 <= g < |starts| => Band(table, starts[g], tol))
  }

  /** One band per representative height, in ascending order of height. */
  function Bands(table: seq<Entry>, tol: int): (bands: seq<seq<Entry>>)
    ensures |bands| == |KeptHeights(UniqueHeights(table), tol)|
    ensures forall g :: 0 <= g < |bands| ==> bands[g] == Band(table, KeptHeights(UniqueHeights(table), tol)[g], tol)
    ensures tol >= 0 ==> forall g :: 0 <= g < |bands| ==> |bands[g]| > 0
  {
    BandsAt(table, KeptHeights(UniqueHeights(table), tol), tol)
  }

  /**
   * Reach sets chain back: the reach set of every height is contained in the
   * reach set of some kept height at or before it.
   */
  lemma {:induction false} ReachChainsBack(u: seq<int>, tol: int, k: nat)
    requires StrictlyAscending(u)
    requires k < |u|
    ensures exists j :: 0 <= j <= k && u[j] in KeptHeights(u, tol) && Reach(u, k, tol) <= Reach(u, j, tol)
  {
    if k == 0 {
      assert u[0] in KeptHeights(u, tol);
    } else if !Redundant(u, tol, k) {
      assert u[k] in KeptHeights(u, tol);
    } else {
      ReachChainsBack(u, tol, k - 1);
      var j :| 0 <= j <= k - 1 && u[j] in KeptHeights(u, tol) && Reach(u, k - 1, tol) <= Reach(u, j, tol);
      assert Reach(u, k, tol) <= Reach(u, j, tol);
    }
  }

  /** With a non-negative tolerance every distinct height lies in the band of some kept height. */
  lemma EveryHeightBanded(u: seq<int>, tol: int, k: nat)
    requires StrictlyAscending(u)
    requires tol >= 0
    requires k < |u|
    ensures exists h :: h in KeptHeights(u, tol) && h <= u[k] <= h + tol
  {
    ReachChainsBack(u, tol, k);
    var j :| 0 <= j <= k && u[j] in KeptHeights(u, tol) && Reach(u, k, tol) <= Reach(u, j, tol);
    assert u[k] in Reach(u, k, tol) by {
      assert u[k] == u[k..][0];
      assert u[k] in u[k..];
    }
    assert u[k] in Reach(u, j, tol);
    assert u[k] - u[j] <= tol;
    assert u[j] <= u[k] by {
      if j < k {
        assert u[j] < u[k];
      }
    }
  }

  /** With a non-negative tolerance every row of the table falls in at least one band. */
  lemma EveryRowBanded(table: seq<Entry>, tol: int, e: Entry)
    requires tol >= 0
    requires e in table
    ensures exists g :: 0 <= g < |Bands(table, tol)| && e in Bands(table, tol)[g]
  {
    var u := UniqueHeights(table);
    var kept := KeptHeights(u, tol);
    assert e.si.height in u;
    var k :| 0 <= k < |u| && u[k] == e.si.height;
    EveryHeightBanded(u, tol, k);
    var h :| h in kept && h <= u[k] <= h + tol;
    var g :| 0 <= g < |kept| && kept[g] == h;
    assert e in Band(table, h, tol);
    assert Bands(table, tol)[g] == Band(table, h, tol);
  }
}
