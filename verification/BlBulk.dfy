/** The bottom-up loader of blbulk.c: leaves filled in order, then level upon level of nodes, with
    the largest key and the page number of each page of a level kept in a growable list. */
module BlBulk {
  import opened BlPages
  import PfPool

  /** The list L: parallel arrays that double when full. */
  class L {
    var p: array<int>
    var k: array<int>
    var n: nat
    var c: nat

    ghost predicate Valid()
      reads this
    {
      p != k && p.Length == k.Length == c >= 1 && n <= c
    }

    /** cL */
    constructor ()
      ensures Valid() && fresh(p) && fresh(k) && n == 0
    {
      c, n := 100, 0;
      p := new int[100];
      k := new int[100];
    }

    /** eL */
    method Extend()
      requires Valid()
      modifies this`p, this`k, this`c
      ensures Valid() && n < c && n == old(n)
      ensures forall i | 0 <= i < n :: k[i] == old(k[i]) && p[i] == old(p[i])
      ensures (p == old(p) || fresh(p)) && (k == old(k) || fresh(k))
    {
      if n >= c {
        c := c * 2;
        var p2, k2 := new int[c], new int[c];
        forall i | 0 <= i < n { p2[i] := p[i]; }
        forall i | 0 <= i < n { k2[i] := k[i]; }
        p, k := p2, k2;
      }
    }

    method Add(key: int, page: int)
      requires Valid()
      modifies this, p, k
      ensures Valid() && n == old(n) + 1 && k[n - 1] == key && p[n - 1] == page
      ensures forall i | 0 <= i < old(n) :: k[i] == old(k[i]) && p[i] == old(p[i])
      ensures (p == old(p) || fresh(p)) && (k == old(k) || fresh(k))
    {
      Extend();
      k[n] := key;
      p[n] := page;
      n := n + 1;
    }
  }

  /** The list holds the first m pages of a level: the largest key and the number of each. */
  ghost predicate Lists(cl: L, lv: Level, m: nat, d: seq<KeyVal>)
    reads cl, cl.p, cl.k
  {
    && cl.Valid() && cl.n == m <= |lv.his|
    && forall i | 0 <= i < m ::
         0 < lv.his[i] <= |d| && cl.k[i] == d[lv.his[i] - 1].key && cl.p[i] == lv.base + i
  }

  /** The leaf being filled, leaf m: nk entries so far. */
  ghost predicate Filling(ks: seq<int>, vs: seq<int>, nk: int, d: seq<KeyVal>, m: nat)
    requires |ks| == |vs| == BL_MAX_LEAF_ENTRIES
  {
    && 0 < nk <= BL_MAX_LEAF_ENTRIES && BL_MAX_LEAF_ENTRIES * m + nk <= |d|
    && forall x | 0 <= x < nk ::
         ks[x] == d[BL_MAX_LEAF_ENTRIES * m + x].key && vs[x] == d[BL_MAX_LEAF_ENTRIES * m + x].value
  }

  /** The leaf is done when it is full or the data has run out. */
  lemma LeafFilled(pages: seq<Page>, lv: Level, m: nat, d: seq<KeyVal>, ks: seq<int>, vs: seq<int>, nk: int)
    requires lv.his == LeafEnds(|d|) && m < |lv.his| && lv.base + m < |pages|
    requires |ks| == |vs| == BL_MAX_LEAF_ENTRIES && Filling(ks, vs, nk, d, m)
    requires nk == BL_MAX_LEAF_ENTRIES || BL_MAX_LEAF_ENTRIES * m + nk == |d|
    requires pages[lv.base + m] == LeafPage(nk, PrevOf(lv, m), NextOf(lv, m), ks, vs)
    ensures LeafOk(pages, lv, m, d)
    ensures lv.his[m] == BL_MAX_LEAF_ENTRIES * m + nk
  {
    hide LeafEnds;
    LeafEndAt(|d|, m);
    LeafLo(|d|, m);
  }

  lemma LeafMax(lv: Level, m: nat, d: seq<KeyVal>, ks: seq<int>, vs: seq<int>, nk: int)
    requires lv.his == LeafEnds(|d|) && m < |lv.his|
    requires |ks| == |vs| == BL_MAX_LEAF_ENTRIES && Filling(ks, vs, nk, d, m)
    requires nk == BL_MAX_LEAF_ENTRIES || BL_MAX_LEAF_ENTRIES * m + nk == |d|
    ensures 0 < lv.his[m] <= |d| && ks[nk - 1] == d[lv.his[m] - 1].key
  {
    hide LeafEnds;
    LeafEndAt(|d|, m);
  }

  /** Leaf m exists when some data is left for it, and is the last when none is left after it. */
  lemma LeafNeeded(n: nat, m: nat)
    ensures BL_MAX_LEAF_ENTRIES * m < n <==> m < |LeafEnds(n)|
    ensures BL_MAX_LEAF_ENTRIES * m + BL_MAX_LEAF_ENTRIES < n <==> m + 1 < |LeafEnds(n)|
  {
    hide Pages;
    Packed(n, BL_MAX_LEAF_ENTRIES, m);
  }

  ghost predicate LeavesUpto(pages: seq<Page>, lv: Level, m: nat, d: seq<KeyVal>) {
    forall j | 0 <= j < m :: LeafOk(pages, lv, j, d)
  }

  lemma LeavesKept(was: seq<Page>, pages: seq<Page>, lv: Level, m: nat, d: seq<KeyVal>)
    requires LeavesUpto(was, lv, m, d) && lv.base + m <= |pages|
    requires forall p | lv.base <= p < lv.base + m && p < |was| :: pages[p] == was[p]
    ensures LeavesUpto(pages, lv, m, d)
  {
    forall j | 0 <= j < m ensures LeafOk(pages, lv, j, d) {
      assert LeafOk(was, lv, j, d);
    }
  }

  lemma LeavesMore(pages: seq<Page>, lv: Level, m: nat, d: seq<KeyVal>)
    requires LeavesUpto(pages, lv, m, d) && LeafOk(pages, lv, m, d) && 1 <= lv.base
    ensures LeavesUpto(pages, lv, m + 1, d)
    ensures m + 1 == |lv.his| && lv.his == LeafEnds(|d|) ==> LeavesOk(pages, lv, d)
  {
  }

  lemma NoLeaves(pages: seq<Page>, lv: Level, d: seq<KeyVal>)
    ensures LeavesUpto(pages, lv, 0, d)
  {
  }

  lemma EmptyList(cl: L, lv: Level, d: seq<KeyVal>)
    requires cl.Valid() && cl.n == 0
    ensures Lists(cl, lv, 0, d)
  {
  }

  // ---- the nodes of a level ----

  ghost predicate NodeFilling(ks: seq<int>, ps: seq<int>, nk: int, d: seq<KeyVal>, below: Level, m: nat)
    requires |ks| == |ps| == BL_MAX_INTERNAL_ENTRIES
  {
    && 0 < nk <= BL_MAX_INTERNAL_ENTRIES && NodeLo(m) + nk <= |below.his|
    && forall x | 0 <= x < nk ::
         && 0 < below.his[NodeLo(m) + x] <= |d|
         && ks[x] == d[below.his[NodeLo(m) + x] - 1].key && ps[x] == below.base + NodeLo(m) + x
  }

  lemma NodeNeeded(below: seq<nat>, m: nat)
    requires |below| > 0
    ensures NodeLo(m) < |below| <==> m < |NodeEnds(below)|
    ensures NodeLo(m) + BL_MAX_INTERNAL_ENTRIES < |below| <==> m + 1 < |NodeEnds(below)|
  {
    hide Pages;
    Packed(|below|, BL_MAX_INTERNAL_ENTRIES, m);
  }

  /** The node is done when it is full or no page below is left, and its last key is its largest. */
  lemma NodeFilled(pages: seq<Page>, lv: Level, m: nat, below: Level, nl: int, d: seq<KeyVal>, ks: seq<int>,
          ps: seq<int>, nk: int)
    requires Ends(below.his, |d|) && lv.his == NodeEnds(below.his) && m < |lv.his| && lv.base + m < |pages|
    requires |ks| == |ps| == BL_MAX_INTERNAL_ENTRIES && NodeFilling(ks, ps, nk, d, below, m)
    requires nk == BL_MAX_INTERNAL_ENTRIES || NodeLo(m) + nk == |below.his|
    requires pages[lv.base + m] == InternalPage(nk, nl, ks, ps)
    ensures NodeOk(pages, lv, m, below, nl, d)
  {
    hide NodeEnds;
    NodeOver(below.his, |d|, m);
  }

  lemma NodeMax(lv: Level, m: nat, below: Level, d: seq<KeyVal>, ks: seq<int>, ps: seq<int>, nk: int)
    requires Ends(below.his, |d|) && lv.his == NodeEnds(below.his) && m < |lv.his|
    requires |ks| == |ps| == BL_MAX_INTERNAL_ENTRIES && NodeFilling(ks, ps, nk, d, below, m)
    requires nk == BL_MAX_INTERNAL_ENTRIES || NodeLo(m) + nk == |below.his|
    ensures 0 < lv.his[m] <= |d| && ks[nk - 1] == d[lv.his[m] - 1].key
  {
    hide NodeEnds;
    NodeOver(below.his, |d|, m);
    EndsBounds(below.his, |d|, NodeHi(m, |below.his|) - 1);
  }

  ghost predicate NodesUpto(pages: seq<Page>, lv: Level, m: nat, below: Level, nl: int, d: seq<KeyVal>) {
    forall j | 0 <= j < m :: NodeOk(pages, lv, j, below, nl, d)
  }

  lemma NodesMore(was: seq<Page>, pages: seq<Page>, lv: Level, m: nat, below: Level, nl: int, d: seq<KeyVal>)
    requires NodesUpto(was, lv, m, below, nl, d) && NodeOk(pages, lv, m, below, nl, d)
    requires forall p | lv.base <= p < lv.base + m && p < |was| :: pages[p] == was[p]
    ensures NodesUpto(pages, lv, m + 1, below, nl, d)
    ensures m + 1 == |lv.his| && lv.his == NodeEnds(below.his) && |below.his| > 1 ==>
              below.base + |below.his| == lv.base ==> NodesOk(pages, lv, below, nl, d)
  {
    forall j | 0 <= j < m ensures NodeOk(pages, lv, j, below, nl, d) {
      assert NodeOk(was, lv, j, below, nl, d);
    }
  }

  lemma NodesKept(was: seq<Page>, pages: seq<Page>, lv: Level, m: nat, below: Level, nl: int, d: seq<KeyVal>)
    requires NodesUpto(was, lv, m, below, nl, d) && |was| <= |pages| && pages[..|was|] == was
    ensures NodesUpto(pages, lv, m, below, nl, d)
  {
    forall j | 0 <= j < m ensures NodeOk(pages, lv, j, below, nl, d) {
      assert NodeOk(was, lv, j, below, nl, d);
      assert pages[lv.base + j] == pages[..|was|][lv.base + j];
    }
  }

  lemma NoNodes(pages: seq<Page>, lv: Level, below: Level, nl: int, d: seq<KeyVal>)
    ensures NodesUpto(pages, lv, 0, below, nl, d)
  {
  }

  lemma ListSize(cl: L, lv: Level, m: nat, d: seq<KeyVal>)
    requires Lists(cl, lv, m, d)
    ensures cl.Valid() && cl.n == m <= |lv.his|
  {
  }

  // ---- the levels ----

  /** All pages but the header are as they were. */
  ghost predicate Grown(was: seq<Page>, pages: seq<Page>) {
    |was| <= |pages| && forall p | 1 <= p < |was| :: pages[p] == was[p]
  }

  lemma LeavesGrown(was: seq<Page>, pages: seq<Page>, lv: Level, d: seq<KeyVal>)
    requires LeavesOk(was, lv, d) && Grown(was, pages)
    ensures LeavesOk(pages, lv, d)
  {
    hide LeafEnds;
    forall i | 0 <= i < |lv.his| ensures LeafOk(pages, lv, i, d) { assert LeafOk(was, lv, i, d); }
  }

  lemma NodesGrown(was: seq<Page>, pages: seq<Page>, lv: Level, below: Level, nl: int, d: seq<KeyVal>)
    requires NodesOk(was, lv, below, nl, d) && Grown(was, pages)
    ensures NodesOk(pages, lv, below, nl, d)
  {
    hide NodeEnds;
    forall i | 0 <= i < |lv.his| ensures NodeOk(pages, lv, i, below, nl, d) { assert NodeOk(was, lv, i, below, nl, d); }
  }

  lemma LevelsGrown(was: seq<Page>, pages: seq<Page>, lvs: seq<Level>, d: seq<KeyVal>)
    requires LevelsOk(was, lvs, d) && Grown(was, pages)
    ensures LevelsOk(pages, lvs, d)
  {
    hide LeavesOk, NodesOk, Grown;
    LeavesGrown(was, pages, lvs[0], d);
    forall j | 1 <= j < |lvs| ensures NodesOk(pages, lvs[j], lvs[j - 1], j, d) {
      NodesGrown(was, pages, lvs[j], lvs[j - 1], j, d);
    }
  }

  lemma OneLevel(pages: seq<Page>, lv: Level, d: seq<KeyVal>)
    requires LeavesOk(pages, lv, d)
    ensures LevelsOk(pages, [lv], d)
  {
  }

  lemma LevelAdded(was: seq<Page>, pages: seq<Page>, lvs: seq<Level>, lv: Level, d: seq<KeyVal>)
    requires LevelsOk(was, lvs, d) && Grown(was, pages) && NodesOk(pages, lv, lvs[|lvs| - 1], |lvs|, d)
    ensures LevelsOk(pages, lvs + [lv], d)
  {
    hide LeavesOk, NodesOk, Grown;
    LevelsGrown(was, pages, lvs, d);
  }

  /** A level of nodes has fewer pages than the one below it, but at least one. */
  lemma Narrower(below: seq<nat>)
    requires |below| > 1
    ensures 0 < |NodeEnds(below)| < |below|
  {
    hide Pages;
    PagesWithin(|below|, BL_MAX_INTERNAL_ENTRIES, |below| - 1);
    PagesWithin(|below|, BL_MAX_INTERNAL_ENTRIES, 0);
  }

  lemma NodesShape(pages: seq<Page>, lv: Level, below: Level, nl: int, d: seq<KeyVal>)
    requires NodesOk(pages, lv, below, nl, d)
    ensures 0 < |lv.his| < |below.his|
  {
    Narrower(below.his);
  }

  lemma SomeLeaves(lv: Level, d: seq<KeyVal>, pages: seq<Page>)
    requires LeavesOk(pages, lv, d) && d != []
    ensures |lv.his| > 0
  {
    LeafEndsOk(|d|);
  }

  lemma Root(cl: L, lv: Level, d: seq<KeyVal>)
    requires Lists(cl, lv, |lv.his|, d) && |lv.his| > 0
    ensures cl.p.Length > 0 && cl.p[0] == lv.base
  {
  }

  lemma HeaderWritten(was: seq<Page>, header: Page, lvs: seq<Level>, d: seq<KeyVal>)
    requires d != [] && LevelsOk(was, lvs, d) && |lvs[|lvs| - 1].his| == 1 && |was| > 0
    requires header == HeaderPage(lvs[|lvs| - 1].base, lvs[0].base, |lvs|, |d|, 'i', 4)
    ensures IndexOk(was[0 := header], lvs, d)
  {
    hide LeavesOk, NodesOk;
    LevelsGrown(was, was[0 := header], lvs, d);
  }

  lemma NodeLoStep(m: nat)
    ensures NodeLo(0) == 0 && NodeLo(m + 1) == NodeLo(m) + BL_MAX_INTERNAL_ENTRIES
  {
  }

  class Bulk {
    var pages: seq<Page>
    ghost var levels: seq<Level>
    ghost var data: seq<KeyVal>

    ghost predicate Valid()
      reads this
    {
      IndexOk(pages, levels, data)
    }

    /** The page that BL_CreateIndex writes: it says that there is nothing yet. */
    constructor Create()
      ensures Valid() && data == [] && pages == [HeaderPage(BL_NO_PAGE, BL_NO_PAGE, 0, 0, 'i', 4)]
    {
      pages := [HeaderPage(BL_NO_PAGE, BL_NO_PAGE, 0, 0, 'i', 4)];
      levels, data := [], [];
    }

    /** PF_AllocPage on a file with no free pages: a page of unknown content at the end. */
    method AllocPage() returns (pn: int)
      modifies this`pages
      ensures pn == |old(pages)| && |pages| == pn + 1 && pages[..pn] == old(pages)
    {
      var anything: Page := *;
      pn := |pages|;
      pages := pages + [anything];
    }

    /** A finished leaf goes to its page and into the list. */
    method FinishLeaf(cl: L, ks: array<int>, vs: array<int>, nk: int, prev: int, cp: int,
                      ghost lv: Level, ghost m: nat, ghost d: seq<KeyVal>)
      requires cl.p != ks && cl.k != ks && cl.p != vs && cl.k != vs && Lists(cl, lv, m, d)
      requires lv.his == LeafEnds(|d|) && m < |lv.his| && cp == lv.base + m < |pages|
      requires ks.Length == vs.Length == BL_MAX_LEAF_ENTRIES && Filling(ks[..], vs[..], nk, d, m)
      requires nk == BL_MAX_LEAF_ENTRIES || BL_MAX_LEAF_ENTRIES * m + nk == |d|
      modifies this`pages, cl, cl.p, cl.k
      ensures pages == old(pages)[cp := LeafPage(nk, prev, BL_NO_PAGE, ks[..], vs[..])]
      ensures Lists(cl, lv, m + 1, d)
      ensures (cl.p == old(cl.p) || fresh(cl.p)) && (cl.k == old(cl.k) || fresh(cl.k))
    {
      hide LeafEnds;
      LeafMax(lv, m, d, ks[..], vs[..], nk);
      pages := pages[cp := LeafPage(nk, prev, BL_NO_PAGE, ks[..], vs[..])];
      cl.Add(ks[nk - 1], cp);
    }

    /** The page after a full leaf: the leaf is finished and chained to it. */
    method TurnPage(cl: L, ks: array<int>, vs: array<int>, nk: int, prev: int, cp: int,
                    ghost lv: Level, ghost m: nat, ghost d: seq<KeyVal>) returns (pn: int)
      requires cl.p != ks && cl.k != ks && cl.p != vs && cl.k != vs && Lists(cl, lv, m, d)
      requires lv.his == LeafEnds(|d|) && m + 1 < |lv.his| && cp == lv.base + m && |pages| == cp + 1
      requires ks.Length == vs.Length == BL_MAX_LEAF_ENTRIES && Filling(ks[..], vs[..], nk, d, m)
      requires 1 <= lv.base && nk == BL_MAX_LEAF_ENTRIES && prev == PrevOf(lv, m) && LeavesUpto(pages, lv, m, d)
      modifies this`pages, cl, cl.p, cl.k
      ensures pn == cp + 1 && |pages| == pn + 1 && pages[..cp] == old(pages[..cp])
      ensures Lists(cl, lv, m + 1, d) && LeavesUpto(pages, lv, m + 1, d)
      ensures (cl.p == old(cl.p) || fresh(cl.p)) && (cl.k == old(cl.k) || fresh(cl.k))
    {
      hide LeafEnds, LeafOk, Lists, Filling, LeavesUpto;
      FinishLeaf(cl, ks, vs, nk, prev, cp, lv, m, d);
      pn := AllocPage();
      pages := pages[cp := pages[cp].(nextPage := pn)];
      LeafFilled(pages, lv, m, d, ks[..], vs[..], nk);
      LeavesKept(old(pages), pages, lv, m, d);
      LeavesMore(pages, lv, m, d);
    }

    /** Entry i of the data into slot nk of the leaf being filled. */
    static method PutEntry(ks: array<int>, vs: array<int>, nk: int, i: int, ghost m: nat, d: seq<KeyVal>)
      requires ks != vs && ks.Length == vs.Length == BL_MAX_LEAF_ENTRIES && 0 <= nk < BL_MAX_LEAF_ENTRIES
      requires nk == 0 || Filling(ks[..], vs[..], nk, d, m)
      requires i == BL_MAX_LEAF_ENTRIES * m + nk < |d|
      modifies ks, vs
      ensures Filling(ks[..], vs[..], nk + 1, d, m)
    {
      ks[nk] := d[i].key;
      vs[nk] := d[i].value;
    }

    /** The first loop of BL_BulkLoad: the leaves. */
    method LoadLeaves(d: seq<KeyVal>) returns (cl: L, fp: int, ghost lv: Level)
      requires d != [] && |pages| >= 1
      modifies this`pages
      ensures fresh(cl) && fresh(cl.p) && fresh(cl.k) && Lists(cl, lv, |lv.his|, d)
      ensures fp == lv.base == |old(pages)| && |pages| == lv.base + |lv.his| && pages[..lv.base] == old(pages)
      ensures LeavesOk(pages, lv, d)
    {
      hide LeafEnds, Filling, LeavesUpto, Lists, LeavesOk;
      var ks, vs := new int[BL_MAX_LEAF_ENTRIES], new int[BL_MAX_LEAF_ENTRIES];
      var cp, nk, prev, i := -1, 0, -1, 0;
      ghost var m := 0;
      fp, lv := -1, Level(|pages|, LeafEnds(|d|));
      cl := new L();
      EmptyList(cl, lv, d);
      NoLeaves(pages, lv, d);
      while i < |d|
        invariant 0 <= i <= |d| && lv == Level(|old(pages)|, LeafEnds(|d|))
        invariant lv.base <= |pages| && pages[..lv.base] == old(pages)
        invariant cp == -1 ==> i == nk == m == 0 && |pages| == lv.base && fp == -1
        invariant cp != -1 ==> i > 0 && fp == lv.base && cp == lv.base + m && |pages| == cp + 1 && prev == PrevOf(lv, m)
        invariant cp != -1 ==> i == BL_MAX_LEAF_ENTRIES * m + nk && m < |lv.his| && 0 < nk <= BL_MAX_LEAF_ENTRIES
        invariant cp != -1 ==> Filling(ks[..], vs[..], nk, d, m)
        invariant LeavesUpto(pages, lv, m, d)
        invariant fresh(cl) && fresh(cl.p) && fresh(cl.k) && Lists(cl, lv, m, d)
        invariant cl.p != ks && cl.k != ks && cl.p != vs && cl.k != vs
      {
        if nk >= BL_MAX_LEAF_ENTRIES || cp == -1 {
          var pn;
          if cp != -1 {
            LeafNeeded(|d|, m);
            pn := TurnPage(cl, ks, vs, nk, prev, cp, lv, m, d);
            m := m + 1;
          } else {
            pn := AllocPage();
            NoLeaves(pages, lv, d);
          }
          prev := cp;
          if fp == -1 { fp := pn; }
          cp, nk := pn, 0;
          LeafNeeded(|d|, m);
        }
        PutEntry(ks, vs, nk, i, m, d);
        nk, i := nk + 1, i + 1;
      }
      LeafNeeded(|d|, m);
      ghost var was := pages;
      FinishLeaf(cl, ks, vs, nk, prev, cp, lv, m, d);
      LeafFilled(pages, lv, m, d, ks[..], vs[..], nk);
      LeavesKept(was, pages, lv, m, d);
      LeavesMore(pages, lv, m, d);
    }

    /** A finished node goes to its page and into the list. */
    method FinishNode(pl: L, ks: array<int>, ps: array<int>, nk: int, nl: int, cp: int,
                      ghost lv: Level, ghost m: nat, ghost below: Level, ghost d: seq<KeyVal>)
      requires pl.p != ks && pl.k != ks && pl.p != ps && pl.k != ps && Lists(pl, lv, m, d)
      requires Ends(below.his, |d|) && lv.his == NodeEnds(below.his) && m < |lv.his| && cp == lv.base + m < |pages|
      requires ks.Length == ps.Length == BL_MAX_INTERNAL_ENTRIES && NodeFilling(ks[..], ps[..], nk, d, below, m)
      requires nk == BL_MAX_INTERNAL_ENTRIES || NodeLo(m) + nk == |below.his|
      requires NodesUpto(pages, lv, m, below, nl, d)
      modifies this`pages, pl, pl.p, pl.k
      ensures |pages| == |old(pages)| && pages[..cp] == old(pages[..cp])
      ensures NodesUpto(pages, lv, m + 1, below, nl, d)
      ensures m + 1 == |lv.his| && |below.his| > 1 && below.base + |below.his| == lv.base
              ==> NodesOk(pages, lv, below, nl, d)
      ensures Lists(pl, lv, m + 1, d)
      ensures (pl.p == old(pl.p) || fresh(pl.p)) && (pl.k == old(pl.k) || fresh(pl.k))
    {
      hide Ends, NodeEnds, NodesUpto, NodeOk, NodesOk;
      NodeMax(lv, m, below, d, ks[..], ps[..], nk);
      pages := pages[cp := InternalPage(nk, nl, ks[..], ps[..])];
      NodeFilled(pages, lv, m, below, nl, d, ks[..], ps[..], nk);
      NodesMore(old(pages), pages, lv, m, below, nl, d);
      pl.Add(ks[nk - 1], cp);
    }

    /** The page after a full node. */
    method TurnNode(pl: L, ks: array<int>, ps: array<int>, nk: int, nl: int, cp: int,
                    ghost lv: Level, ghost m: nat, ghost below: Level, ghost d: seq<KeyVal>) returns (pn: int)
      requires pl.p != ks && pl.k != ks && pl.p != ps && pl.k != ps && Lists(pl, lv, m, d)
      requires Ends(below.his, |d|) && lv.his == NodeEnds(below.his) && m < |lv.his| && cp == lv.base + m
      requires |pages| == cp + 1
      requires ks.Length == ps.Length == BL_MAX_INTERNAL_ENTRIES && NodeFilling(ks[..], ps[..], nk, d, below, m)
      requires nk == BL_MAX_INTERNAL_ENTRIES && NodesUpto(pages, lv, m, below, nl, d)
      modifies this`pages, pl, pl.p, pl.k
      ensures pn == cp + 1 && |pages| == pn + 1 && pages[..cp] == old(pages[..cp])
      ensures NodesUpto(pages, lv, m + 1, below, nl, d) && Lists(pl, lv, m + 1, d)
      ensures (pl.p == old(pl.p) || fresh(pl.p)) && (pl.k == old(pl.k) || fresh(pl.k))
    {
      hide Ends, NodeEnds, NodesUpto, NodeFilling, Lists;
      FinishNode(pl, ks, ps, nk, nl, cp, lv, m, below, d);
      ghost var was := pages;
      pn := AllocPage();
      NodesKept(was, pages, lv, m + 1, below, nl, d);
    }

    /** Page i of the list into slot nk of the node being filled. */
    static method PutChild(ks: array<int>, ps: array<int>, nk: int, cl: L, i: int,
                           ghost below: Level, ghost m: nat, ghost d: seq<KeyVal>)
      requires ks != ps && ks.Length == ps.Length == BL_MAX_INTERNAL_ENTRIES && 0 <= nk < BL_MAX_INTERNAL_ENTRIES
      requires Lists(cl, below, |below.his|, d) && cl.p != ks && cl.k != ks && cl.p != ps && cl.k != ps
      requires nk == 0 || NodeFilling(ks[..], ps[..], nk, d, below, m)
      requires i == NodeLo(m) + nk < |below.his|
      modifies ks, ps
      ensures NodeFilling(ks[..], ps[..], nk + 1, d, below, m)
    {
      ks[nk] := cl.k[i];
      ps[nk] := cl.p[i];
    }

    /** One turn of the second loop of BL_BulkLoad: a level of nodes over the listed pages. */
    method LoadLevel(cl: L, nl: int, ghost below: Level, ghost d: seq<KeyVal>) returns (pl: L, ghost lv: Level)
      requires Lists(cl, below, |below.his|, d) && cl.n > 1 && Ends(below.his, |d|)
      requires below.base + |below.his| == |pages|
      modifies this`pages
      ensures fresh(pl) && fresh(pl.p) && fresh(pl.k) && Lists(pl, lv, |lv.his|, d)
      ensures |pages| == lv.base + |lv.his| && lv.base == |old(pages)| && pages[..lv.base] == old(pages)
      ensures NodesOk(pages, lv, below, nl, d)
    {
      hide Ends, NodeEnds, NodeFilling, NodesUpto, NodesOk, Lists, L.Valid, NodeLo;
      NodeLoStep(0);
      ListSize(cl, below, |below.his|, d);
      var ks, ps := new int[BL_MAX_INTERNAL_ENTRIES], new int[BL_MAX_INTERNAL_ENTRIES];
      var cp, nk, i := -1, 0, 0;
      ghost var m := 0;
      lv := Level(|pages|, NodeEnds(below.his));
      pl := new L();
      EmptyList(pl, lv, d);
      NoNodes(pages, lv, below, nl, d);
      while i < cl.n
        invariant cl.n == |below.his| && Lists(cl, below, |below.his|, d)
        invariant 0 <= i <= cl.n && lv == Level(|old(pages)|, NodeEnds(below.his))
        invariant lv.base <= |pages| && pages[..lv.base] == old(pages)
        invariant cp == -1 ==> i == nk == m == 0 && |pages| == lv.base
        invariant cp != -1 ==> i > 0 && cp == lv.base + m && |pages| == cp + 1
        invariant cp != -1 ==> i == NodeLo(m) + nk && m < |lv.his| && 0 < nk <= BL_MAX_INTERNAL_ENTRIES
        invariant cp != -1 ==> NodeFilling(ks[..], ps[..], nk, d, below, m)
        invariant NodesUpto(pages, lv, m, below, nl, d)
        invariant fresh(pl) && fresh(pl.p) && fresh(pl.k) && Lists(pl, lv, m, d)
        invariant pl.p != ks && pl.k != ks && pl.p != ps && pl.k != ps
      {
        if nk >= BL_MAX_INTERNAL_ENTRIES || cp == -1 {
          var pn;
          if cp != -1 {
            pn := TurnNode(pl, ks, ps, nk, nl, cp, lv, m, below, d);
            NodeLoStep(m);
            m := m + 1;
          } else {
            pn := AllocPage();
            NoNodes(pages, lv, below, nl, d);
          }
          cp, nk := pn, 0;
          NodeNeeded(below.his, m);
        }
        PutChild(ks, ps, nk, cl, i, below, m, d);
        nk, i := nk + 1, i + 1;
      }
      NodeNeeded(below.his, m);
      FinishNode(pl, ks, ps, nk, nl, cp, lv, m, below, d);
    }

    /** BL_BulkLoad: no records leave the index as it is, any others become the whole index. */
    method BulkLoad(d: seq<KeyVal>)
      requires Valid()
      modifies this
      ensures Valid()
      ensures data == if d == [] then old(data) else d
      ensures d == [] ==> pages == old(pages)
      ensures d != [] ==> pages[0].numRecords == |d|
      ensures d != [] ==> forall h: nat | h > 0 :: pages[0].numLevels <= h <==> |d| <= Room(h)
    {
      hide LeavesOk, LevelsOk, NodesOk, NodeEnds, LeafEnds, Lists, Ends;
      if |d| == 0 { return; }
      var cl, fp;
      ghost var lv;
      ghost var first := pages[0];
      cl, fp, lv := LoadLeaves(d);
      assert pages[0] == pages[..lv.base][0] == first;
      var nl := 1;
      ghost var lvs := [lv];
      OneLevel(pages, lv, d);
      SomeLeaves(lv, d, pages);
      ListSize(cl, lv, |lv.his|, d);
      while cl.n > 1
        invariant LevelsOk(pages, lvs, d) && nl == |lvs| > 0 && lv == lvs[nl - 1] && lvs[0].base == fp
        invariant Lists(cl, lv, |lv.his|, d) && cl.n == |lv.his| > 0 && cl.Valid()
        invariant |pages| == lv.base + |lv.his| && pages[0] == first
        decreases cl.n
      {
        LevelEnds(pages, lvs, d, nl - 1);
        ghost var was, below := pages, lv;
        cl, lv := LoadLevel(cl, nl, below, d);
        assert pages[0] == pages[..lv.base][0] == first;
        ListSize(cl, lv, |lv.his|, d);
        NodesShape(pages, lv, below, nl, d);
        LevelAdded(was, pages, lvs, lv, d);
        lvs := lvs + [lv];
        nl := nl + 1;
      }
      Root(cl, lv, d);
      var header := pages[0].(rootPage := cl.p[0], firstLeaf := fp, numLevels := nl, numRecords := |d|);
      HeaderWritten(pages, header, lvs, d);
      pages := pages[0 := header];
      levels, data := lvs, d;
      forall h: nat | h > 0 ensures pages[0].numLevels <= h <==> |d| <= Room(h) { LeastLevels(pages, levels, d, h); }
    }
  }

  /** What the paged file answers to the calls of BL_CreateIndex that it checks; open is a file
      descriptor or an error. */
  datatype PfAnswers = PfAnswers(create: int, open: int, alloc: int)

  /** BL_CreateIndex: an index with nothing in it, unless the file cannot be made, opened or extended. */
  method CreateIndex(pf: PfAnswers) returns (ok: bool, index: Bulk?)
    ensures ok <==> pf.create == PfPool.PFE_OK && pf.open >= 0 && pf.alloc == PfPool.PFE_OK
    ensures ok <==> index != null
    ensures ok ==> fresh(index) && index.Valid() && index.data == [] && |index.pages| == 1
  {
    if pf.create != PfPool.PFE_OK || pf.open < 0 || pf.alloc != PfPool.PFE_OK {
      return false, null;
    }
    index := new Bulk.Create();
    ok := true;
  }
}
