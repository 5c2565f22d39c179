/** Searching a bulk-loaded index (blsearch.c): a binary search on every page from the root down. */
module BlSearch {
  import opened BlPages
  import opened BlBulk

  ghost predicate Ascends(k: seq<int>, n: nat) {
    n <= |k| && forall x, y | 0 <= x <= y < n :: k[x] <= k[y]
  }

  /** bs: a slot that holds s, or else how many keys are below s. */
  method Bs(k: seq<int>, n: nat, s: int) returns (l: nat, f: bool)
    requires Ascends(k, n)
    ensures f <==> exists x :: 0 <= x < n && k[x] == s
    ensures f ==> l < n && k[l] == s
    ensures !f ==> l <= n && (forall x | 0 <= x < l :: k[x] < s) && (forall x | l <= x < n :: s < k[x])
  {
    var lo, r := 0, n - 1;
    while lo <= r
      invariant 0 <= lo <= r + 1 <= n
      invariant forall x | 0 <= x < lo :: k[x] < s
      invariant forall x | r < x < n :: s < k[x]
      decreases r - lo + 1
    {
      var m := (lo + r) / 2;
      if k[m] == s {
        return m, true;
      } else if k[m] < s {
        lo := m + 1;
      } else {
        r := m - 1;
      }
    }
    return lo, false;
  }

  /** Some entry of d[lo..hi] has key k. */
  ghost predicate Occurs(d: seq<KeyVal>, k: int, lo: nat, hi: nat) {
    exists x :: lo <= x < hi <= |d| && d[x].key == k
  }

  /** Page cp is page i of level j, and if k occurs at all then it occurs under this page. */
  ghost predicate Narrowed(levels: seq<Level>, d: seq<KeyVal>, k: int, cp: int, j: nat, i: nat) {
    && j < |levels| && i < |levels[j].his| && cp == levels[j].base + i
    && (Occurs(d, k, 0, |d|) ==> Occurs(d, k, Lo(levels[j].his, i), levels[j].his[i]))
  }

  lemma NoRoot(pages: seq<Page>, levels: seq<Level>, d: seq<KeyVal>)
    requires IndexOk(pages, levels, d)
    ensures pages[0].rootPage == BL_NO_PAGE <==> d == []
  {
  }

  lemma AtRoot(pages: seq<Page>, levels: seq<Level>, d: seq<KeyVal>, k: int)
    requires IndexOk(pages, levels, d) && d != []
    ensures |levels| > 0 && LevelsOk(pages, levels, d)
    ensures Narrowed(levels, d, k, pages[0].rootPage, |levels| - 1, 0)
  {
    LevelEnds(pages, levels, d, |levels| - 1);
  }

  lemma LeafAscends(pg: Page, d: seq<KeyVal>, lo: nat, hi: nat)
    requires LeafHolds(pg, d, lo, hi) && Sorted(d)
    ensures Ascends(pg.keys, pg.numKeys)
  {
  }

  lemma NodeAscends(pg: Page, d: seq<KeyVal>, below: Level, a: nat, b: nat)
    requires NodeHolds(pg, d, below, a, b) && Ends(below.his, |d|) && Sorted(d)
    ensures Ascends(pg.keys, pg.numKeys)
  {
    forall x, y | 0 <= x <= y < pg.numKeys ensures pg.keys[x] <= pg.keys[y] {
      assert below.his[a + x] <= below.his[a + y];
    }
  }

  /** What the page at hand is. */
  lemma PageAt(pages: seq<Page>, levels: seq<Level>, d: seq<KeyVal>, j: nat, i: nat)
    requires LevelsOk(pages, levels, d) && d != [] && Sorted(d) && j < |levels| && i < |levels[j].his|
    ensures levels[j].base + i < |pages|
    ensures var pg := pages[levels[j].base + i];
            if j == 0 then LeafHolds(pg, d, Lo(levels[0].his, i), levels[0].his[i])
            else NodeHolds(pg, d, levels[j - 1], NodeLo(i), NodeHi(i, |levels[j - 1].his|))
    ensures var pg := pages[levels[j].base + i];
            && (if j == 0 then pg.LeafPage? else pg.InternalPage?)
            && pg.numKeys > 0 && Ascends(pg.keys, pg.numKeys)
    ensures var pg := pages[levels[j].base + i]; pg.InternalPage? ==> pg.numKeys <= |pg.ptrs|
  {
    hide Sorted, LeafEnds, NodeEnds;
    if j == 0 {
      assert LeafOk(pages, levels[0], i, d);
      LeafAscends(pages[levels[j].base + i], d, Lo(levels[0].his, i), levels[0].his[i]);
    } else {
      assert NodesOk(pages, levels[j], levels[j - 1], j, d);
      assert NodeOk(pages, levels[j], i, levels[j - 1], j, d);
      LevelEnds(pages, levels, d, j - 1);
      NodeAscends(pages[levels[j].base + i], d, levels[j - 1], NodeLo(i), NodeHi(i, |levels[j - 1].his|));
    }
  }

  /** The child chosen: the one whose largest key is s, or the first whose largest key exceeds s. */
  lemma ChildNarrows(pg: Page, d: seq<KeyVal>, below: Level, a: nat, b: nat, k: int, p: nat, x: nat)
    requires NodeHolds(pg, d, below, a, b) && Ends(below.his, |d|) && Sorted(d) && p < pg.numKeys
    requires pg.keys[p] == k || (k < pg.keys[p] && forall y | 0 <= y < p :: pg.keys[y] < k)
    requires Lo(below.his, a) <= x < below.his[b - 1] && d[x].key == k
    ensures Occurs(d, k, Lo(below.his, a + p), below.his[a + p])
  {
    EndsBounds(below.his, |d|, a + p);
    var hi := below.his[a + p];
    if pg.keys[p] == k {
      assert d[hi - 1].key == k;
    } else {
      assert x < hi;
      if p > 0 {
        assert pg.keys[p - 1] < k;
        assert d[below.his[a + p - 1] - 1].key < k;
        assert below.his[a + p - 1] <= x;
      }
    }
  }

  /** When every largest key is less than s, s occurs nowhere under the node. */
  lemma PastAll(pg: Page, d: seq<KeyVal>, below: Level, a: nat, b: nat, k: int)
    requires NodeHolds(pg, d, below, a, b) && Ends(below.his, |d|) && Sorted(d)
    requires forall y | 0 <= y < pg.numKeys :: pg.keys[y] < k
    ensures !Occurs(d, k, Lo(below.his, a), below.his[b - 1])
  {
    assert pg.keys[b - 1 - a] < k;
    assert d[below.his[b - 1] - 1].key < k;
  }

  lemma Descends(pages: seq<Page>, levels: seq<Level>, d: seq<KeyVal>, k: int, cp: int, j: nat, i: nat, p: nat)
    requires LevelsOk(pages, levels, d) && d != [] && Sorted(d) && Narrowed(levels, d, k, cp, j, i) && j > 0
    requires 0 <= cp < |pages|
    requires var pg := pages[cp];
             && NodeHolds(pg, d, levels[j - 1], NodeLo(i), NodeHi(i, |levels[j - 1].his|)) && p < pg.numKeys
             && (pg.keys[p] == k
                 || (k < pg.keys[p] && forall y | 0 <= y < p :: pg.keys[y] < k)
                 || forall y | 0 <= y < pg.numKeys :: pg.keys[y] < k)
    ensures Narrowed(levels, d, k, pages[cp].ptrs[p], j - 1, NodeLo(i) + p)
  {
    hide Sorted, LevelsOk, NodeEnds, Occurs;
    var below, a, b := levels[j - 1], NodeLo(i), NodeHi(i, |levels[j - 1].his|);
    LevelEnds(pages, levels, d, j - 1);
    NodeRange(pages, levels, d, j, i);
    if Occurs(d, k, 0, |d|) {
      var x := Witness(d, k, Lo(below.his, a), below.his[b - 1]);
      if forall y | 0 <= y < pages[cp].numKeys :: pages[cp].keys[y] < k {
        PastAll(pages[cp], d, below, a, b, k);
        assert false;
      } else {
        ChildNarrows(pages[cp], d, below, a, b, k, p, x);
      }
    }
  }

  lemma NodeRange(pages: seq<Page>, levels: seq<Level>, d: seq<KeyVal>, j: nat, i: nat)
    requires LevelsOk(pages, levels, d) && d != [] && 0 < j < |levels| && i < |levels[j].his|
    ensures var below := levels[j - 1].his;
            && NodeLo(i) < NodeHi(i, |below|) <= |below|
            && Lo(levels[j].his, i) == Lo(below, NodeLo(i)) && levels[j].his[i] == below[NodeHi(i, |below|) - 1]
  {
    LevelEnds(pages, levels, d, j - 1);
    assert NodesOk(pages, levels[j], levels[j - 1], j, d);
    NodeOver(levels[j - 1].his, |d|, i);
  }

  lemma Witness(d: seq<KeyVal>, k: int, lo: nat, hi: nat) returns (x: nat)
    requires Occurs(d, k, lo, hi)
    ensures lo <= x < hi <= |d| && d[x].key == k
  {
    x :| lo <= x < hi <= |d| && d[x].key == k;
  }

  /** Whether the leaf holds the key decides whether the data does. */
  lemma LeafAnswers(pg: Page, d: seq<KeyVal>, lo: nat, hi: nat, k: int, p: nat, f: bool)
    requires LeafHolds(pg, d, lo, hi) && (Occurs(d, k, 0, |d|) ==> Occurs(d, k, lo, hi))
    requires f <==> exists x :: 0 <= x < pg.numKeys && pg.keys[x] == k
    requires f ==> p < pg.numKeys && pg.keys[p] == k
    ensures f <==> exists x :: 0 <= x < |d| && d[x].key == k
    ensures f ==> p < |pg.values| && KeyVal(k, pg.values[p]) in d
  {
    assert f ==> d[lo + p] == KeyVal(k, pg.values[p]);
    if Occurs(d, k, 0, |d|) {
      var x := Witness(d, k, lo, hi);
      assert pg.keys[x - lo] == k;
    }
    assert Occurs(d, k, 0, |d|) <==> exists x :: 0 <= x < |d| && d[x].key == k;
  }

  datatype Found = BL_OK(value: int) | BL_KEYNOTFOUND

  /** BL_Search: a value paired with the key in the data, or not found when the key is not there. */
  method BL_Search(index: Bulk, k: int) returns (r: Found)
    requires index.Valid() && Sorted(index.data)
    ensures r.BL_OK? <==> exists x :: 0 <= x < |index.data| && index.data[x].key == k
    ensures r.BL_OK? ==> KeyVal(k, r.value) in index.data
  {
    hide Sorted, LevelsOk, NodeHolds, LeafHolds, Ascends, Occurs;
    ghost var d, levels := index.data, index.levels;
    var cp := index.pages[0].rootPage;
    NoRoot(index.pages, levels, d);
    if cp == BL_NO_PAGE { return BL_KEYNOTFOUND; }
    AtRoot(index.pages, levels, d, k);
    ghost var j: nat, i: nat := |levels| - 1, 0;
    while true
      invariant d != [] && Narrowed(levels, d, k, cp, j, i)
      decreases j
    {
      PageAt(index.pages, levels, d, j, i);
      var pg := index.pages[cp];
      var p, f := Bs(pg.keys, pg.numKeys, k);
      if pg.LeafPage? {
        LeafAnswers(pg, d, Lo(levels[0].his, i), levels[0].his[i], k, p, f);
        return if f then BL_OK(pg.values[p]) else BL_KEYNOTFOUND;
      } else {
        if f || p >= pg.numKeys { p := if p >= pg.numKeys then pg.numKeys - 1 else p; }
        Descends(index.pages, levels, d, k, cp, j, i, p);
        j, i := j - 1, NodeLo(i) + p;
        cp := pg.ptrs[p];
      }
    }
  }
}
