/** How AM_Search descends: where it stands on each level, and why the child BinSearch picks
    is the right one. */
module AmDescend {
  import opened AmEntries
  import opened AmLeafPage
  import opened AmNode
  import opened AmTree
  import opened AmSplit
  import opened AmLeaves
  import opened AmPaths
  import opened AmClimb

  /** The search for value has come to position q of level n, which is page p. */
  ghost predicate SearchAt(f: File, h: nat, n: nat, q: nat, p: int, value: Key) {
    var level := Below(f, RootLevel(), n);
    n <= h && q < |level| && level[q].page == p && InRange(level, q, value)
  }

  lemma SearchStart(f: File, ht: seq<nat>, h: nat, c: Config, value: Key)
    requires TreeOk(f, ht, h, c)
    ensures SearchAt(f, h, 0, 0, AM_ROOT, value) && PathOk(f, [], [0]) && |f| > 0
    ensures h > 0 ==> f[AM_ROOT].IntPage?
    ensures h == 0 ==> f[AM_ROOT].LeafPage?
  {
    hide LeafOk;
    var level := RootLevel();
    assert Below(f, level, 0) == level;
    if h > 0 {
      assert InnerOk(f, ht, Below(f, level, 0), h, c, 1);
      PageInFile(f, ht, level, h, 0);
    } else {
      LeafFits(f, ht, level, c, 0);
    }
  }

  lemma SearchNode(f: File, ht: seq<nat>, h: nat, c: Config, n: nat, q: nat, p: int)
    requires TreeOk(f, ht, h, c) && n < h
    requires q < |Below(f, RootLevel(), n)| && Below(f, RootLevel(), n)[q].page == p
    ensures IsNode(f, p) && 1 <= |f[p].node.pairs| <= f[p].node.maxKeys <= MAX_PAIRS
    ensures PairsRise(f[p].node.pairs)
  {
    hide LeafOkAt, Down;
    var level := Below(f, RootLevel(), n);
    assert InnerOk(f, ht, level, h - n, c, MinAt(n, c));
    PageInFile(f, ht, level, h - n, q);
    assert NodeOk(f[p].node, c, MinAt(n, c));
    LevelsRise(f, ht, h, c, n + 1);
    PairsRiseIn(f, level, q);
  }

  /** Every level of a tree rises, because its leaf level does. */
  lemma {:induction false} LevelsRise(f: File, ht: seq<nat>, h: nat, c: Config, n: nat)
    requires TreeOk(f, ht, h, c) && n <= h
    ensures LowersRise(Below(f, RootLevel(), n))
    decreases h - n
  {
    hide LeafOkAt, Down, LowersRise;
    if n < h {
      LevelsRise(f, ht, h, c, n + 1);
      var level := Below(f, RootLevel(), n);
      assert InnerOk(f, ht, level, h - n, c, MinAt(n, c));
      LevelHasKids(f, ht, level, h - n, c, MinAt(n, c));
      RiseUp(f, level);
    }
  }

  lemma LevelHasKids(f: File, ht: seq<nat>, level: seq<Item>, g: nat, c: Config, min: int)
    requires InnerOk(f, ht, level, g, c, min)
    ensures forall i | 0 <= i < |level| :: Kids(f, level[i]) != []
  {
  }

  lemma SearchStep(f: File, ht: seq<nat>, h: nat, c: Config, n: nat, q: nat, p: int, value: Key, o: nat, nextPage: int)
      returns (x: nat)
    requires TreeOk(f, ht, h, c) && n < h && SearchAt(f, h, n, q, p, value)
    requires IsNode(f, p) && Rank(f[p].node.pairs, value, o) && nextPage == ChildAt(f[p].node.first, f[p].node.pairs, o)
    ensures SearchAt(f, h, n + 1, x, nextPage, value)
    ensures Parent(f, n + 1, q, p, o, x)
    ensures 0 <= nextPage < |f|
    ensures n + 1 < h ==> f[nextPage].IntPage?
    ensures n + 1 == h ==> f[nextPage].LeafPage?
  {
    hide LeafOkAt, Down, InRange;
    var level := Below(f, RootLevel(), n);
    assert InnerOk(f, ht, level, h - n, c, MinAt(n, c));
    x := Start(f, level, q) + o;
    RangeDown(f, level, q, value, o);
    var next := Below(f, RootLevel(), n + 1);
    assert next[x].page == nextPage;
    if n + 1 < h {
      assert InnerOk(f, ht, next, h - n - 1, c, MinAt(n + 1, c));
      PageInFile(f, ht, next, h - n - 1, x);
    } else {
      LeafFits(f, ht, next, c, x);
    }
  }

  lemma LeafFound(f: File, ht: seq<nat>, h: nat, c: Config, q: nat, p: int, value: Key)
    requires TreeOk(f, ht, h, c) && SearchAt(f, h, h, q, p, value)
    ensures q < |Leaves(f, h)| && Leaves(f, h)[q].page == p && InRange(Leaves(f, h), q, value)
    ensures IsLeaf(f, p) && LeafOk(f[p].leaf) && Sorted(Entries(f[p].leaf))
    ensures |f[p].leaf.slots| == MAX_SLOTS && |f[p].leaf.cells| == PF_PAGE_SIZE
  {
    hide Down, LowersRise, UpperOk;
    LeafFits(f, ht, Leaves(f, h), c, q);
  }
}
