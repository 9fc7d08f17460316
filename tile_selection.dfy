/**
 * The three tile-selection policies of the picture mosaic, as state machines
 * over the colours of the cells in visiting order.
 *
 * P is the palette (tile references, compared by identity as a `List<byte[]>`
 * compares them) and A its list of average colours, entry for entry. A policy
 * keeps working copies of both lists; each cell's colour selects an index into
 * the working colour list, the tile at the same index of the working palette
 * is chosen, and the two lists lose one entry each: the palette the chosen
 * tile (first occurrence, by reference), the colour list the selected index.
 *
 * A run records the working lists, the counter of images used since the last
 * reset, the tiles chosen so far (one per cell) and whether a cell has thrown
 * (the closest-colour search on an empty list); once failed, nothing changes.
 */
module TileSelection {
  import opened Geometry
  import opened MosaicCalculations

  predicate Distinct<T(==)>(xs: seq<T>) {
    forall a, b :: 0 <= a < b < |xs| ==> xs[a] != xs[b]
  }

  /** List<T>.Remove(x): drops the first element equal to x; without such an element the list is unchanged. */
  function RemoveFirst<T(==)>(xs: seq<T>, x: T): (r: seq<T>)
    ensures x in xs ==> |r| == |xs| - 1
    ensures x !in xs ==> r == xs
  {
    if |xs| == 0 then []
    else if xs[0] == x then xs[1..]
    else [xs[0]] + RemoveFirst(xs[1..], x)
  }

  /** Removing never adds: everything left was in the list before. */
  lemma {:induction false} RemoveFirstSubset<T>(xs: seq<T>, x: T)
    ensures forall y :: y in RemoveFirst(xs, x) ==> y in xs
  {
    if |xs| > 0 && xs[0] != x {
      RemoveFirstSubset(xs[1..], x);
      assert forall y :: y in [xs[0]] + RemoveFirst(xs[1..], x) ==> y == xs[0] || y in RemoveFirst(xs[1..], x);
    }
  }

  /** List<T>.RemoveAt(k). */
  function RemoveAt<T>(xs: seq<T>, k: nat): (r: seq<T>)
    requires k < |xs|
    ensures |r| == |xs| - 1
  {
    xs[..k] + xs[k + 1..]
  }

  /** Removing x by value removes it at the index of its first occurrence. */
  lemma {:induction false} RemoveFirstAt<T>(xs: seq<T>, x: T, k: nat)
    requires k < |xs| && xs[k] == x && x !in xs[..k]
    ensures RemoveFirst(xs, x) == RemoveAt(xs, k)
  {
    if k > 0 {
      assert xs[0] != x by { assert xs[0] == xs[..k][0]; }
      var tail := xs[1..];
      assert tail[..k - 1] == xs[1..k];
      assert x !in tail[..k - 1] by {
        forall y | y in xs[1..k] ensures y in xs[..k] { }
      }
      RemoveFirstAt(tail, x, k - 1);
      assert RemoveAt(xs, k) == [xs[0]] + RemoveAt(tail, k - 1);
    }
  }

  /** In a list without duplicates, removing by value is removing at the value's index, and the value is gone. */
  lemma RemoveFirstDistinct<T>(xs: seq<T>, k: nat)
    requires Distinct(xs) && k < |xs|
    ensures RemoveFirst(xs, xs[k]) == RemoveAt(xs, k)
    ensures Distinct(RemoveAt(xs, k)) && xs[k] !in RemoveAt(xs, k)
  {
    assert xs[k] !in xs[..k] by {
      forall m | 0 <= m < k ensures xs[..k][m] != xs[k] { }
    }
    RemoveFirstAt(xs, xs[k], k);
    RemoveAtDistinct(xs, k);
  }

  lemma RemoveAtDistinct<T>(xs: seq<T>, k: nat)
    requires Distinct(xs) && k < |xs|
    ensures Distinct(RemoveAt(xs, k)) && xs[k] !in RemoveAt(xs, k)
  {
    var r := RemoveAt(xs, k);
    assert forall m :: 0 <= m < |r| ==> r[m] == if m < k then xs[m] else xs[m + 1];
    forall a, b | 0 <= a < b < |r| ensures r[a] != r[b] {
      assert r[a] == xs[if a < k then a else a + 1];
      assert r[b] == xs[if b < k then b else b + 1];
    }
    forall m | 0 <= m < |r| ensures r[m] != xs[k] {
      assert r[m] == xs[if m < k then m else m + 1];
    }
  }

  /**
   * Entry m of the working lists stands for entry ids[m] of the full palette:
   * the tile and the colour at the same index belong together.
   */
  predicate AlignedBy<T(==)>(pal: seq<T>, cols: seq<Color>, P: seq<T>, A: seq<Color>, ids: seq<nat>) {
    && |pal| == |cols| == |ids|
    && forall m :: 0 <= m < |ids| ==> ids[m] < |P| && ids[m] < |A| && pal[m] == P[ids[m]] && cols[m] == A[ids[m]]
  }

  ghost predicate Aligned<T>(pal: seq<T>, cols: seq<Color>, P: seq<T>, A: seq<Color>) {
    exists ids :: AlignedBy(pal, cols, P, A, ids)
  }

  /** The closest-colour search a policy runs on its working colour list. */
  type Search = (seq<Color>, Color) -> Option<nat>

  /**
   * What the policies rely on: the search returns an index into a non-empty
   * list and None, the exception, on an empty one.
   */
  ghost predicate IsSearch(search: Search) {
    forall cs: seq<Color>, c: Color ::
      (search(cs, c).None? <==> |cs| == 0) && (search(cs, c).Some? ==> search(cs, c).value < |cs|)
  }

  /** FindIndexOfClosestColor is such a search; the lemmas below hold for every one. */
  lemma ClosestIsSearch()
    ensures IsSearch(FindIndexOfClosestColor)
  {
  }

  /** A search that returns the first occurrence of a colour equal to the target. */
  ghost predicate FindsExact(search: Search) {
    forall cs: seq<Color>, k: nat :: k < |cs| && cs[k] !in cs[..k] ==> search(cs, cs[k]) == Some(k)
  }

  /** FindIndexOfClosestColor finds an exact match at distance 0, at its first occurrence. */
  lemma ClosestFindsExactly()
    ensures FindsExact(FindIndexOfClosestColor)
  {
    forall cs: seq<Color>, k: nat | k < |cs| && cs[k] !in cs[..k]
      ensures FindIndexOfClosestColor(cs, cs[k]) == Some(k)
    {
      assert forall i :: 0 <= i < k ==> cs[i] == cs[..k][i];
      ClosestFindsExact(cs, cs[k], k);
    }
  }

  datatype Selection<T> = Selection(palette: seq<T>, colors: seq<Color>, used: nat, chosen: seq<T>, failed: bool)

  /** A selection that has not failed, with these working lists, count and choices. */
  predicate Holds<T(==)>(st: Selection<T>, palette: seq<T>, colors: seq<Color>, used: nat, chosen: seq<T>) {
    && !st.failed && st.palette == palette && st.colors == colors && st.used == used && st.chosen == chosen
  }

  /** The working copies made before the first cell. */
  function Start<T>(P: seq<T>, A: seq<Color>): Selection<T> {
    Selection(P, A, 0, [], false)
  }

  // ---------------------------------------------------------------------------
  // CreatePictureMosaic: the closest tile of the whole palette, every time

  /** The tile of the whole palette whose average colour is the first closest to `color`. */
  function PlainTile<T>(search: Search, P: seq<T>, A: seq<Color>, color: Color): T
    requires IsSearch(search)
    requires |P| == |A| > 0
  {
    P[search(A, color).value]
  }

  function PlainStep<T>(search: Search, P: seq<T>, A: seq<Color>, st: Selection<T>, color: Color): (r: Selection<T>)
    requires IsSearch(search)
    requires |P| == |A|
    ensures r.failed <==> st.failed || |P| == 0
    ensures !r.failed ==> r.chosen == st.chosen + [PlainTile(search, P, A, color)]
    ensures r.failed ==> r.chosen == st.chosen
  {
    if st.failed then st
    else match search(A, color)
      case None => st.(failed := true)
      case Some(idx) => st.(chosen := st.chosen + [P[idx]])
  }

  /**
   * The plain policy after n cells: it fails exactly on an empty palette (at
   * the first cell, before any tile is chosen); otherwise cell k gets the tile
   * whose average colour is the first closest one to the cell's colour.
   */
  function PlainRun<T>(search: Search, P: seq<T>, A: seq<Color>, cells: seq<Color>, n: nat): (st: Selection<T>)
    requires IsSearch(search)
    requires |P| == |A| && n <= |cells|
    ensures st.failed <==> n > 0 && |P| == 0
    ensures st.failed ==> st.chosen == []
    ensures !st.failed ==> |st.chosen| == n
    decreases n
  {
    if n == 0 then Start(P, A)
    else PlainStep(search, P, A, PlainRun(search, P, A, cells, n - 1), cells[n - 1])
  }

  /** Cell k gets the tile whose average colour is the first closest one to the cell's colour. */
  lemma {:induction false} PlainChoice<T>(search: Search, P: seq<T>, A: seq<Color>, cells: seq<Color>, n: nat)
    requires IsSearch(search)
    requires |P| == |A| && n <= |cells| && !PlainRun(search, P, A, cells, n).failed
    ensures forall k :: 0 <= k < n ==> PlainRun(search, P, A, cells, n).chosen[k] == PlainTile(search, P, A, cells[k])
    decreases n
  {
    if n > 0 {
      var prev := PlainRun(search, P, A, cells, n - 1);
      PlainChoice(search, P, A, cells, n - 1);
      assert PlainRun(search, P, A, cells, n).chosen == prev.chosen + [PlainTile(search, P, A, cells[n - 1])];
    }
  }

  /** The plain policy repeats freely: two cells of the same colour get the same tile. */
  lemma {:induction false} PlainSameColorSameTile<T>(search: Search, P: seq<T>, A: seq<Color>, cells: seq<Color>, k: nat, m: nat)
    requires IsSearch(search)
    requires |P| == |A| && k < |cells| && m < |cells| && cells[k] == cells[m]
    requires !PlainRun(search, P, A, cells, |cells|).failed
    ensures PlainRun(search, P, A, cells, |cells|).chosen[k] == PlainRun(search, P, A, cells, |cells|).chosen[m]
  {
    var chosen := PlainRun(search, P, A, cells, |cells|).chosen;
    assert |chosen| == |cells|;
    PlainChoice(search, P, A, cells, |cells|);
    var t := PlainTile(search, P, A, cells[k]);
    assert chosen[k] == t;
    assert chosen[m] == t;
  }

  // ---------------------------------------------------------------------------
  // CreatePictureMosaicUsingAllImagesBeforeRepeat

  /** Refill both working lists when the colour list is empty, then select and remove. */
  function UseAllStep<T(==)>(search: Search, P: seq<T>, A: seq<Color>, st: Selection<T>, color: Color): (r: Selection<T>)
    requires IsSearch(search)
    requires |P| == |A| && |st.palette| == |st.colors|
    ensures st.chosen <= r.chosen
    ensures !r.failed ==> |r.chosen| == |st.chosen| + 1
  {
    if st.failed then st
    else
      var refill := |st.colors| == 0;
      var pal := if refill then P else st.palette;
      var cols := if refill then A else st.colors;
      match search(cols, color)
      case None => Selection(pal, cols, st.used, st.chosen, true)
      case Some(idx) => Selection(RemoveFirst(pal, pal[idx]), RemoveAt(cols, idx), st.used, st.chosen + [pal[idx]], false)
  }

  /**
   * The use-all policy after n cells. The two working lists always have the
   * same length (each cell removes one entry from each, a refill restores
   * both), and the run fails exactly when the palette is empty.
   */
  function UseAllRun<T(==)>(search: Search, P: seq<T>, A: seq<Color>, cells: seq<Color>, n: nat): (st: Selection<T>)
    requires IsSearch(search)
    requires |P| == |A| && n <= |cells|
    ensures |st.palette| == |st.colors| <= |P|
    ensures st.failed <==> n > 0 && |P| == 0
    ensures !st.failed ==> |st.chosen| == n
    decreases n
  {
    if n == 0 then Start(P, A)
    else UseAllStep(search, P, A, UseAllRun(search, P, A, cells, n - 1), cells[n - 1])
  }

  /** Later cells only append: the tiles chosen for the first m cells stay chosen. */
  lemma {:induction false} UseAllChosenPrefix<T>(search: Search, P: seq<T>, A: seq<Color>, cells: seq<Color>, m: nat, n: nat)
    requires IsSearch(search)
    requires |P| == |A| && m <= n <= |cells|
    ensures UseAllRun(search, P, A, cells, m).chosen <= UseAllRun(search, P, A, cells, n).chosen
    decreases n
  {
    if m < n {
      UseAllChosenPrefix(search, P, A, cells, m, n - 1);
    }
  }

  /** The working palette only ever holds palette tiles. */
  lemma {:induction false} UseAllFromPalette<T>(search: Search, P: seq<T>, A: seq<Color>, cells: seq<Color>, n: nat)
    requires IsSearch(search)
    requires |P| == |A| && n <= |cells|
    ensures forall t :: t in UseAllRun(search, P, A, cells, n).palette ==> t in P
    decreases n
  {
    if n > 0 {
      UseAllFromPalette(search, P, A, cells, n - 1);
      var st := UseAllRun(search, P, A, cells, n - 1);
      var pal := if |st.colors| == 0 then P else st.palette;
      if !st.failed && search(if |st.colors| == 0 then A else st.colors, cells[n - 1]).Some? {
        var idx := search(if |st.colors| == 0 then A else st.colors, cells[n - 1]).value;
        RemoveFirstSubset(pal, pal[idx]);
      }
    }
  }

  /** Once a run has failed it stays as it was: every later cell leaves it unchanged. */
  lemma {:induction false} UseAllFailedStays<T>(search: Search, P: seq<T>, A: seq<Color>, cells: seq<Color>, n: nat, m: nat)
    requires IsSearch(search)
    requires |P| == |A| && n <= m <= |cells| && UseAllRun(search, P, A, cells, n).failed
    ensures UseAllRun(search, P, A, cells, m) == UseAllRun(search, P, A, cells, n)
    decreases m
  {
    if n < m {
      UseAllFailedStays(search, P, A, cells, n, m - 1);
    }
  }

  /**
   * With distinct tiles, removing by reference and removing by index take out
   * the same entry, so the working lists stay paired: every working tile
   * keeps its own average colour beside it.
   */
  lemma {:induction false} UseAllAligned<T>(search: Search, P: seq<T>, A: seq<Color>, cells: seq<Color>, n: nat)
    requires IsSearch(search)
    requires |P| == |A| && n <= |cells| && Distinct(P)
    ensures var st := UseAllRun(search, P, A, cells, n); Distinct(st.palette) && Aligned(st.palette, st.colors, P, A)
    decreases n
  {
    var st := UseAllRun(search, P, A, cells, n);
    if n == 0 {
      FullyAligned(P, A);
    } else {
      var prev := UseAllRun(search, P, A, cells, n - 1);
      UseAllAligned(search, P, A, cells, n - 1);
      var refill := |prev.colors| == 0;
      var pal := if refill then P else prev.palette;
      var cols := if refill then A else prev.colors;
      if refill {
        FullyAligned(P, A);
      }
      assert Distinct(pal) && Aligned(pal, cols, P, A);
      if !st.failed {
        var idx := search(cols, cells[n - 1]).value;
        assert st.palette == RemoveFirst(pal, pal[idx]) && st.colors == RemoveAt(cols, idx);
        RemoveFirstDistinct(pal, idx);
        AlignedRemoveAt(pal, cols, P, A, idx);
      }
    }
  }

  lemma FullyAligned<T>(P: seq<T>, A: seq<Color>)
    requires |P| == |A|
    ensures Aligned(P, A, P, A)
  {
    var ids: seq<nat> := seq(|P|, m => m);
    assert AlignedBy(P, A, P, A, ids);
  }

  /** Removing the same index from both lists keeps them paired. */
  lemma AlignedRemoveAt<T>(pal: seq<T>, cols: seq<Color>, P: seq<T>, A: seq<Color>, idx: nat)
    requires Aligned(pal, cols, P, A) && idx < |pal|
    ensures Aligned(RemoveAt(pal, idx), RemoveAt(cols, idx), P, A)
  {
    var ids: seq<nat> :| AlignedBy(pal, cols, P, A, ids);
    var ids' := RemoveAt(ids, idx);
    assert AlignedBy(RemoveAt(pal, idx), RemoveAt(cols, idx), P, A, ids') by {
      forall m | 0 <= m < |ids'|
        ensures ids'[m] < |P| && ids'[m] < |A| && RemoveAt(pal, idx)[m] == P[ids'[m]] && RemoveAt(cols, idx)[m] == A[ids'[m]]
      {
        var m0 := if m < idx then m else m + 1;
        assert ids'[m] == ids[m0] && RemoveAt(pal, idx)[m] == pal[m0] && RemoveAt(cols, idx)[m] == cols[m0];
      }
    }
  }

  /**
   * The refills of a palette of K >= 1 tiles come every K cells: before cell n
   * the working lists hold K - 1 - (n - 1) % K entries, so they are empty
   * (and refilled) exactly at cells K, 2K, 3K, ...
   */
  lemma {:induction false} UseAllCycle<T>(search: Search, P: seq<T>, A: seq<Color>, cells: seq<Color>, n: nat)
    requires IsSearch(search)
    requires |P| == |A| && n <= |cells| && |P| >= 1
    ensures |UseAllRun(search, P, A, cells, n).colors| == Remaining(|P|, n)
    decreases n
  {
    if n > 0 {
      UseAllCycle(search, P, A, cells, n - 1);
      UseAllShrinks(search, P, A, cells, n);
    }
  }

  /** The working lists are empty, and refilled at the next cell, exactly after cells K, 2K, 3K, ... */
  lemma UseAllRefills<T>(search: Search, P: seq<T>, A: seq<Color>, cells: seq<Color>, n: nat)
    requires IsSearch(search)
    requires |P| == |A| && n <= |cells| && |P| >= 1
    ensures |UseAllRun(search, P, A, cells, n).colors| == 0 <==> n > 0 && n % |P| == 0
  {
    UseAllCycle(search, P, A, cells, n);
    RemainingZero(|P|, n);
  }

  /** Cell n starts with a refill: the working lists are empty after cell n - 1. */
  predicate Refills<T(==)>(search: Search, P: seq<T>, A: seq<Color>, cells: seq<Color>, n: nat)
    requires IsSearch(search) && |P| == |A| && n <= |cells|
  {
    |UseAllRun(search, P, A, cells, n).colors| == 0
  }

  /** Each cell takes one entry from the working lists, refilled first when empty. */
  lemma UseAllShrinks<T>(search: Search, P: seq<T>, A: seq<Color>, cells: seq<Color>, n: nat)
    requires IsSearch(search)
    requires |P| == |A| && 0 < n <= |cells| && |P| >= 1
    ensures var before := |UseAllRun(search, P, A, cells, n - 1).colors|;
      |UseAllRun(search, P, A, cells, n).colors| == (if before == 0 then |P| else before) - 1
  {
  }

  /** Entries left in the working lists of a K-tile palette after n cells of the use-all policy. */
  function Remaining(K: nat, n: nat): int
    requires K >= 1
  {
    if n == 0 then K
    else
      var before := Remaining(K, n - 1);
      (if before == 0 then K else before) - 1
  }

  /** In closed form: K - 1 - (n - 1) % K after n >= 1 cells. */
  lemma {:induction false} RemainingClosed(K: nat, n: nat)
    requires K >= 1 && n >= 1
    ensures Remaining(K, n) == K - 1 - (n - 1) % K
  {
    if n == 1 {
      DivRange(0, 0, K);
      assert Remaining(K, 0) == K;
    } else {
      RemainingClosed(K, n - 1);
      NextResidue(n - 2, K);
      RemainingStep(K, Remaining(K, n - 1), Remaining(K, n), (n - 2) % K, (n - 1) % K);
    }
  }

  lemma RemainingStep(K: int, before: int, after: int, r: int, r': int)
    requires 0 <= r < K && before == K - 1 - r
    requires after == (if before == 0 then K else before) - 1
    requires r' == if K - r == 1 then 0 else r + 1
    ensures after == K - 1 - r'
  {
  }

  lemma RemainingZero(K: nat, n: nat)
    requires K >= 1
    ensures Remaining(K, n) == 0 <==> n > 0 && n % K == 0
  {
    if n > 0 {
      RemainingClosed(K, n);
      NextResidue(n - 1, K);
    }
  }

  /**
   * Cell n - 1 of a use-all run that has not failed: the lists it selects from
   * (refilled or not), the index selected, and the resulting state.
   */
  lemma UseAllShape<T>(search: Search, P: seq<T>, A: seq<Color>, cells: seq<Color>, n: nat) returns (pal: seq<T>, cols: seq<Color>, idx: nat)
    requires IsSearch(search)
    requires |P| == |A| && 0 < n <= |cells| && |P| > 0
    ensures var prev := UseAllRun(search, P, A, cells, n - 1);
      && pal == (if |prev.colors| == 0 then P else prev.palette)
      && cols == (if |prev.colors| == 0 then A else prev.colors)
      && idx < |pal| == |cols|
      && UseAllRun(search, P, A, cells, n) == Selection(RemoveFirst(pal, pal[idx]), RemoveAt(cols, idx), prev.used, prev.chosen + [pal[idx]], false)
  {
    var prev := UseAllRun(search, P, A, cells, n - 1);
    pal := if |prev.colors| == 0 then P else prev.palette;
    cols := if |prev.colors| == 0 then A else prev.colors;
    idx := search(cols, cells[n - 1]).value;
  }

  /** Without a refill in between, a tile out of the working palette stays out. */
  lemma {:induction false} UseAllStaysOut<T>(search: Search, P: seq<T>, A: seq<Color>, cells: seq<Color>, x: T, s: nat, q: nat)
    requires IsSearch(search)
    requires |P| == |A| && s <= q <= |cells| && |P| > 0
    requires x !in UseAllRun(search, P, A, cells, s).palette
    requires forall p :: s <= p < q ==> !Refills(search, P, A, cells, p)
    ensures x !in UseAllRun(search, P, A, cells, q).palette
    decreases q
  {
    if s < q {
      UseAllStaysOut(search, P, A, cells, x, s, q - 1);
      UseAllKeepsOut(search, P, A, cells, q, x);
    }
  }

  /** The tile chosen at cell k leaves the working palette (the palette has no duplicates). */
  lemma UseAllTakes<T>(search: Search, P: seq<T>, A: seq<Color>, cells: seq<Color>, k: nat)
    requires IsSearch(search)
    requires |P| == |A| && k < |cells| && Distinct(P) && |P| > 0
    ensures UseAllRun(search, P, A, cells, k + 1).chosen[k] !in UseAllRun(search, P, A, cells, k + 1).palette
  {
    UseAllAligned(search, P, A, cells, k);
    var pal, cols, idx := UseAllShape(search, P, A, cells, k + 1);
    RemoveFirstDistinct(pal, idx);
  }

  /** A cell without a refill only removes from the working palette. */
  lemma UseAllKeepsOut<T>(search: Search, P: seq<T>, A: seq<Color>, cells: seq<Color>, q: nat, x: T)
    requires IsSearch(search)
    requires |P| == |A| && 0 < q <= |cells| && |P| > 0
    requires !Refills(search, P, A, cells, q - 1)
    requires x !in UseAllRun(search, P, A, cells, q - 1).palette
    ensures x !in UseAllRun(search, P, A, cells, q).palette
  {
    var pal, cols, idx := UseAllShape(search, P, A, cells, q);
    RemoveFirstSubset(pal, pal[idx]);
  }

  /**
   * With distinct tiles, no tile repeats within a refill cycle: two cells in
   * the same block K*b .. K*b + K - 1 of a palette of K tiles get different tiles.
   */
  lemma UseAllNoRepeat<T>(search: Search, P: seq<T>, A: seq<Color>, cells: seq<Color>, k: nat, m: nat)
    requires IsSearch(search)
    requires |P| == |A| && Distinct(P) && |P| > 0
    requires k < m < |cells| && k / |P| == m / |P|
    ensures !UseAllRun(search, P, A, cells, |cells|).failed
    ensures UseAllRun(search, P, A, cells, |cells|).chosen[k] != UseAllRun(search, P, A, cells, |cells|).chosen[m]
  {
    UseAllDiffer(search, P, A, cells, k, m);
    UseAllKeepsChoice(search, P, A, cells, k, |cells|);
    UseAllKeepsChoice(search, P, A, cells, m, |cells|);
  }

  /** The tile chosen for cell k stays chosen in every later run. */
  lemma UseAllKeepsChoice<T>(search: Search, P: seq<T>, A: seq<Color>, cells: seq<Color>, k: nat, n: nat)
    requires IsSearch(search)
    requires |P| == |A| && |P| > 0 && k < n <= |cells|
    ensures UseAllRun(search, P, A, cells, n).chosen[k] == UseAllRun(search, P, A, cells, k + 1).chosen[k]
  {
    UseAllChosenPrefix(search, P, A, cells, k + 1, n);
  }

  /** The same within one block, stated on the runs that end at cells k and m. */
  lemma UseAllDiffer<T>(search: Search, P: seq<T>, A: seq<Color>, cells: seq<Color>, k: nat, m: nat)
    requires IsSearch(search)
    requires |P| == |A| && Distinct(P) && |P| > 0
    requires k < m < |cells| && k / |P| == m / |P|
    ensures UseAllRun(search, P, A, cells, k + 1).chosen[k] != UseAllRun(search, P, A, cells, m + 1).chosen[m]
  {
    var x := UseAllRun(search, P, A, cells, k + 1).chosen[k];
    NoRefillWithin(search, P, A, cells, k, m);
    UseAllTakes(search, P, A, cells, k);
    UseAllStaysOut(search, P, A, cells, x, k + 1, m);
    assert !Refills(search, P, A, cells, m);
    var pal, cols, idx := UseAllShape(search, P, A, cells, m + 1);
  }

  /** Within one block of K cells no refill happens after the block's first cell. */
  lemma NoRefillWithin<T>(search: Search, P: seq<T>, A: seq<Color>, cells: seq<Color>, k: nat, m: nat)
    requires IsSearch(search)
    requires |P| == |A| && |P| > 0 && k < m < |cells| && k / |P| == m / |P|
    ensures forall p :: k < p <= m ==> !Refills(search, P, A, cells, p)
  {
    forall p | k < p <= m ensures !Refills(search, P, A, cells, p) {
      UseAllRefills(search, P, A, cells, p);
      BlockInterior(|P|, k, m, p);
    }
  }

  /** A position strictly after k and not after m, in the same block of K as both, is not a multiple of K. */
  lemma BlockInterior(K: nat, k: nat, m: nat, p: nat)
    requires K >= 1 && k / K == m / K && k < p <= m
    ensures p % K != 0
  {
    var b := k / K;
    var base := b * K;
    DivRange(k, b, K);
    DivRange(m, b, K);
    assert base <= p < base + K;
    ModOf(p, b, K);
  }

  // ---------------------------------------------------------------------------
  // CreatePictureMosaicPreventJuxtaposed

  /**
   * Select from the working lists, count the image, and when the count reaches
   * the cell's random draw reset the working lists and the count; only then
   * remove the chosen tile (by reference) and the selected index (from the
   * list that is now current, whichever it is).
   */
  function JuxStep<T(==)>(search: Search, P: seq<T>, A: seq<Color>, st: Selection<T>, color: Color, draw: int): (r: Selection<T>)
    requires IsSearch(search)
    requires |P| == |A| && |st.palette| == |st.colors| <= |P|
    requires forall t :: t in st.palette ==> t in P
    ensures forall t :: t in r.palette ==> t in P
  {
    if st.failed then st
    else match search(st.colors, color)
      case None => st.(failed := true)
      case Some(idx) =>
        var tile := st.palette[idx];
        var used := st.used + 1;
        RemoveFirstSubset(P, tile);
        RemoveFirstSubset(st.palette, tile);
        if used >= draw then Selection(RemoveFirst(P, tile), RemoveAt(A, idx), 0, st.chosen + [tile], false)
        else Selection(RemoveFirst(st.palette, tile), RemoveAt(st.colors, idx), used, st.chosen + [tile], false)
  }

  /**
   * The prevent-juxtaposed policy after n cells, with draws[k] the value
   * `Random.Next(2, 7)` returns at cell k. The working lists keep equal
   * lengths and only ever hold palette tiles.
   */
  function JuxRun<T(==)>(search: Search, P: seq<T>, A: seq<Color>, cells: seq<Color>, draws: seq<int>, n: nat): (st: Selection<T>)
    requires IsSearch(search)
    requires |P| == |A| && n <= |cells| && n <= |draws|
    ensures |st.palette| == |st.colors| <= |P|
    ensures forall t :: t in st.palette ==> t in P
    ensures !st.failed ==> |st.chosen| == n
    ensures st.failed ==> n > 0
    decreases n
  {
    if n == 0 then Start(P, A)
    else JuxStep(search, P, A, JuxRun(search, P, A, cells, draws, n - 1), cells[n - 1], draws[n - 1])
  }

  /** Once a run has failed it stays as it was: every later cell leaves it unchanged. */
  lemma {:induction false} JuxFailedStays<T>(search: Search, P: seq<T>, A: seq<Color>, cells: seq<Color>, draws: seq<int>, n: nat, m: nat)
    requires IsSearch(search)
    requires |P| == |A| && n <= m <= |cells| && m <= |draws| && JuxRun(search, P, A, cells, draws, n).failed
    ensures JuxRun(search, P, A, cells, draws, m) == JuxRun(search, P, A, cells, draws, n)
    decreases m
  {
    if n < m {
      JuxFailedStays(search, P, A, cells, draws, n, m - 1);
    }
  }

  predicate DrawsInRange(draws: seq<int>) {
    forall k :: 0 <= k < |draws| ==> 2 <= draws[k] <= 6
  }

  /**
   * A one-tile palette fails at the second cell: the first cell empties both
   * working lists, and no draw (at least 2) resets them after one image.
   */
  lemma JuxOneTileFails<T>(search: Search, P: seq<T>, A: seq<Color>, cells: seq<Color>, draws: seq<int>)
    requires IsSearch(search)
    requires |P| == |A| == 1 && |cells| >= 2 && |draws| >= 2 && DrawsInRange(draws)
    ensures !JuxRun(search, P, A, cells, draws, 1).failed && JuxRun(search, P, A, cells, draws, 2).failed
  {
    var st := JuxRun(search, P, A, cells, draws, 1);
    assert search(A, cells[0]) == Some(0);
    assert st.colors == [];
  }

  /**
   * Between resets the count of used images stays below the draw, so at most
   * 5 and the working lists have at least |P| - 6 entries: a palette of seven
   * or more tiles never runs dry.
   */
  lemma {:induction false} JuxLargePaletteInvariant<T>(search: Search, P: seq<T>, A: seq<Color>, cells: seq<Color>, draws: seq<int>, n: nat)
    requires IsSearch(search)
    requires |P| == |A| >= 7 && n <= |cells| && n <= |draws| && DrawsInRange(draws)
    ensures var st := JuxRun(search, P, A, cells, draws, n);
      !st.failed && st.used <= 5 && |st.colors| + st.used >= |P| - 1
    decreases n
  {
    if n > 0 {
      JuxLargePaletteInvariant(search, P, A, cells, draws, n - 1);
      assert draws[n - 1] <= 6;
    }
  }

  lemma JuxLargePaletteCompletes<T>(search: Search, P: seq<T>, A: seq<Color>, cells: seq<Color>, draws: seq<int>)
    requires IsSearch(search)
    requires |P| == |A| >= 7 && |cells| <= |draws| && DrawsInRange(draws)
    ensures !JuxRun(search, P, A, cells, draws, |cells|).failed
  {
    JuxLargePaletteInvariant(search, P, A, cells, draws, |cells|);
  }

  /**
   * With distinct tiles the working palette stays free of duplicates: both
   * the working list and a reset copy of the palette lose the chosen tile by
   * reference, which removes it entirely.
   */
  lemma {:induction false} JuxDistinct<T>(search: Search, P: seq<T>, A: seq<Color>, cells: seq<Color>, draws: seq<int>, n: nat)
    requires IsSearch(search)
    requires |P| == |A| && n <= |cells| && n <= |draws| && Distinct(P)
    ensures Distinct(JuxRun(search, P, A, cells, draws, n).palette)
    decreases n
  {
    if n > 0 {
      JuxDistinct(search, P, A, cells, draws, n - 1);
      var st := JuxRun(search, P, A, cells, draws, n - 1);
      if !st.failed {
        match search(st.colors, cells[n - 1])
        case None =>
        case Some(idx) =>
          var tile := st.palette[idx];
          RemoveFirstDistinct(st.palette, idx);
          assert tile in P;
          var j :| 0 <= j < |P| && P[j] == tile;
          RemoveFirstDistinct(P, j);
      }
    }
  }

  /**
   * What the policy is for: with distinct tiles, two cells visited one after
   * the other never get the same tile. The chosen tile leaves the working
   * palette whether or not the cell's draw resets it.
   */
  lemma JuxNoImmediateRepeat<T>(search: Search, P: seq<T>, A: seq<Color>, cells: seq<Color>, draws: seq<int>, k: nat)
    requires IsSearch(search)
    requires |P| == |A| && k + 2 <= |cells| && k + 2 <= |draws| && Distinct(P)
    requires !JuxRun(search, P, A, cells, draws, k + 2).failed
    ensures JuxRun(search, P, A, cells, draws, k + 2).chosen[k] != JuxRun(search, P, A, cells, draws, k + 2).chosen[k + 1]
  {
    var st := JuxRun(search, P, A, cells, draws, k);
    var st1 := JuxRun(search, P, A, cells, draws, k + 1);
    var st2 := JuxRun(search, P, A, cells, draws, k + 2);
    JuxDistinct(search, P, A, cells, draws, k);
    assert !st1.failed;
    assert !st.failed;
    var idx := search(st.colors, cells[k]).value;
    var tile := st.palette[idx];
    assert st1.chosen == st.chosen + [tile];
    RemoveFirstDistinct(st.palette, idx);
    assert tile in P;
    var j :| 0 <= j < |P| && P[j] == tile;
    RemoveFirstDistinct(P, j);
    assert tile !in st1.palette;
    var idx1 := search(st1.colors, cells[k + 1]).value;
    assert st2.chosen == st1.chosen + [st1.palette[idx1]];
  }

  /** The prevent-juxtaposed run with the program's own search, FindIndexOfClosestColor. */
  function ClosestJuxRun<T(==)>(P: seq<T>, A: seq<Color>, cells: seq<Color>, draws: seq<int>, n: nat): Selection<T>
    requires |P| == |A| && n <= |cells| && n <= |draws|
  {
    ClosestIsSearch();
    JuxRun(FindIndexOfClosestColor, P, A, cells, draws, n)
  }

  /**
   * The promise stops at the next cell: a reset can bring a tile back two
   * cells later. Here tile 10 is chosen at cells 0 and 2; in an image two
   * cells wide those are vertical neighbours.
   */
  lemma JuxRepeatAfterReset(search: Search, P: seq<int>, A: seq<Color>, cells: seq<Color>, draws: seq<int>)
    requires IsSearch(search)
    requires P == [10, 20] && A == [Black, White]
    requires cells == [Black, White, Black] && draws == [6, 2, 6]
    requires search(A, Black) == Some(0)
    ensures JuxRun(search, P, A, cells, draws, 3).chosen == [10, 20, 10]
  {
    JuxRepeatReset(search, P, A, cells, draws);
  }

  /** The first two cells of the example above: the black tile, then the white one with a reset. */
  lemma JuxRepeatReset(search: Search, P: seq<int>, A: seq<Color>, cells: seq<Color>, draws: seq<int>)
    requires IsSearch(search)
    requires P == [10, 20] && A == [Black, White]
    requires cells == [Black, White, Black] && draws == [6, 2, 6]
    requires search(A, Black) == Some(0)
    ensures JuxRun(search, P, A, cells, draws, 2) == Selection([10], [White], 0, [10, 20], false)
  {
    JuxRepeatFirst(search, P, A, cells, draws);
    assert RemoveFirst(P, 20) == [10];
  }

  /** The first cell of the example above: the black tile, no reset. */
  lemma JuxRepeatFirst(search: Search, P: seq<int>, A: seq<Color>, cells: seq<Color>, draws: seq<int>)
    requires IsSearch(search)
    requires P == [10, 20] && A == [Black, White]
    requires cells == [Black, White, Black] && draws == [6, 2, 6]
    requires search(A, Black) == Some(0)
    ensures JuxRun(search, P, A, cells, draws, 1) == Selection([20], [White], 1, [10], false)
  {
    assert RemoveFirst(P, 10) == [20];
    assert RemoveAt(A, 0) == [White];
  }

  /** The same repeat with FindIndexOfClosestColor as the search. */
  lemma ClosestJuxRepeatAfterReset(P: seq<int>, A: seq<Color>, cells: seq<Color>, draws: seq<int>)
    requires P == [10, 20] && A == [Black, White]
    requires cells == [Black, White, Black] && draws == [6, 2, 6]
    ensures ClosestJuxRun(P, A, cells, draws, 3).chosen == [10, 20, 10]
  {
    ClosestIsSearch();
    ClosestFindsExactly();
    assert A[0] !in A[..0];
    JuxRepeatAfterReset(FindIndexOfClosestColor, P, A, cells, draws);
  }

  const Grey := Color(128, 128, 128)

  /**
   * After a reset the two lists fall out of step even for distinct tiles:
   * the tile is removed where it sits in the full palette, but the index
   * removed from the colours is the one it had in the shrunken list. Here tile
   * 20 (average grey) ends up beside white, the colour of the removed tile 30,
   * and a third white cell gets tile 20.
   */
  lemma JuxMisalignment(search: Search, P: seq<int>, A: seq<Color>, cells: seq<Color>, draws: seq<int>)
    requires IsSearch(search)
    requires P == [10, 20, 30] && A == [Black, Grey, White]
    requires cells == [Black, White, White] && draws == [6, 2, 6]
    requires search(A, Black) == Some(0)
    requires search([Grey, White], White) == Some(1)
    requires search([Black, White], White) == Some(1)
    ensures JuxRun(search, P, A, cells, draws, 2) == Selection([10, 20], [Black, White], 0, [10, 30], false)
    ensures !Aligned([10, 20], [Black, White], P, A)
    ensures JuxRun(search, P, A, cells, draws, 3).chosen == [10, 30, 20]
  {
    JuxMisalignmentReset(search, P, A, cells, draws);
  }

  /** The first two cells of the example above: a black tile, then the reset. */
  lemma JuxMisalignmentReset(search: Search, P: seq<int>, A: seq<Color>, cells: seq<Color>, draws: seq<int>)
    requires IsSearch(search)
    requires P == [10, 20, 30] && A == [Black, Grey, White]
    requires cells == [Black, White, White] && draws == [6, 2, 6]
    requires search(A, Black) == Some(0)
    requires search([Grey, White], White) == Some(1)
    ensures JuxRun(search, P, A, cells, draws, 2) == Selection([10, 20], [Black, White], 0, [10, 30], false)
  {
    JuxMisalignmentFirst(search, P, A, cells, draws);
    assert RemoveFirst(P, 30) == [10, 20];
    assert RemoveAt(A, 1) == [Black, White];
  }

  lemma JuxMisalignmentFirst(search: Search, P: seq<int>, A: seq<Color>, cells: seq<Color>, draws: seq<int>)
    requires IsSearch(search)
    requires P == [10, 20, 30] && A == [Black, Grey, White]
    requires cells == [Black, White, White] && draws == [6, 2, 6]
    requires search(A, Black) == Some(0)
    ensures JuxRun(search, P, A, cells, draws, 1) == Selection([20, 30], [Grey, White], 1, [10], false)
  {
    assert RemoveFirst(P, 10) == [20, 30];
    assert RemoveAt(A, 0) == [Grey, White];
  }

  /** The three lookups the misalignment example makes, for a search that finds exact matches. */
  lemma ExactLookups(search: Search, A: seq<Color>)
    requires FindsExact(search) && A == [Black, Grey, White]
    ensures search(A, Black) == Some(0)
    ensures search([Grey, White], White) == Some(1)
    ensures search([Black, White], White) == Some(1)
  {
    assert A[0] !in A[..0];
    assert [Grey, White][1] !in [Grey, White][..1];
    assert [Black, White][1] !in [Black, White][..1];
  }

  /** The misalignment example above, with FindIndexOfClosestColor as the search. */
  lemma ClosestJuxMisalignment(P: seq<int>, A: seq<Color>, cells: seq<Color>, draws: seq<int>)
    requires P == [10, 20, 30] && A == [Black, Grey, White]
    requires cells == [Black, White, White] && draws == [6, 2, 6]
    ensures ClosestJuxRun(P, A, cells, draws, 2) == Selection([10, 20], [Black, White], 0, [10, 30], false)
    ensures !Aligned([10, 20], [Black, White], P, A)
    ensures ClosestJuxRun(P, A, cells, draws, 3).chosen == [10, 30, 20]
  {
    ClosestIsSearch();
    ClosestFindsExactly();
    ExactLookups(FindIndexOfClosestColor, A);
    JuxMisalignment(FindIndexOfClosestColor, P, A, cells, draws);
  }
}
