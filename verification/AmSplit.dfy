/** What splitting does to the tree: the steps by which a new page, already correct below,
    is made known to its parent level, on files. */
module AmSplit {
  import opened Sequences
  import opened AmEntries
  import opened AmLeafPage
  import opened AmNode
  import opened AmTree

  // ---- frames ----

  /** f and g have the same content in all pages of the level. */
  ghost predicate SameOn(f: File, g: File, level: seq<Item>) {
    forall i | 0 <= i < |level| ::
      0 <= level[i].page < |f| && level[i].page < |g| && f[level[i].page] == g[level[i].page]
  }

  lemma SameDown(f: File, g: File, level: seq<Item>)
    requires SameOn(f, g, level)
    ensures Down(g, level) == Down(f, level)
  {
    DownFrame(f, g, level);
  }

  lemma {:induction false} BelowFrame(f: File, g: File, level: seq<Item>, n: nat)
    requires forall m | 0 <= m < n :: SameOn(f, g, Below(f, level, m))
    ensures Below(g, level, n) == Below(f, level, n)
  {
    hide Down, SameOn;
    if n > 0 {
      BelowFrame(f, g, level, n - 1);
      SameDown(f, g, Below(f, level, n - 1));
    }
  }

  /** g is f with pages changed and added; pages of the given heights are not changed, and no
      page of f changes its height. */
  ghost predicate Extends(f: File, ht: seq<nat>, g: File, gt: seq<nat>, lo: int, hi: int) {
    && |ht| == |f| <= |g| == |gt|
    && forall p | 0 <= p < |f| && lo <= ht[p] <= hi :: g[p] == f[p] && gt[p] == ht[p]
  }

  lemma PlacedFrame(f: File, ht: seq<nat>, g: File, gt: seq<nat>, lo: int, hi: int, level: seq<Item>, x: nat)
    requires Extends(f, ht, g, gt, lo, hi) && Placed(f, ht, level, x) && lo <= x <= hi
    ensures Placed(g, gt, level, x) && SameOn(f, g, level)
  {
  }

  lemma InnerFrame(f: File, ht: seq<nat>, g: File, gt: seq<nat>, lo: int, hi: int, level: seq<Item>, x: nat,
          c: Config, min: int)
    requires Extends(f, ht, g, gt, lo, hi) && InnerOk(f, ht, level, x, c, min) && lo <= x <= hi
    ensures InnerOk(g, gt, level, x, c, min) && SameOn(f, g, level)
  {
    hide NodeOk;
    PlacedFrame(f, ht, g, gt, lo, hi, level, x);
  }

  lemma LeavesFrame(f: File, ht: seq<nat>, g: File, gt: seq<nat>, hi: int, level: seq<Item>, c: Config)
    requires Extends(f, ht, g, gt, 0, hi) && LeavesOk(f, ht, level, c) && 0 <= hi
    ensures LeavesOk(g, gt, level, c) && SameOn(f, g, level)
  {
    hide LeafOk, InRange, NextPage, Sorted;
    PlacedFrame(f, ht, g, gt, 0, hi, level, 0);
    forall i | 0 <= i < |level| ensures LeafOkAt(g, level, i, c) {
      assert LeafOkAt(f, level, i, c);
    }
  }

  /** Changing pages above a level does not matter below it. */
  lemma GoodFrame(f: File, ht: seq<nat>, g: File, gt: seq<nat>, level: seq<Item>, x: nat, c: Config)
    requires Extends(f, ht, g, gt, 0, x) && Good(f, ht, level, x, c)
    ensures Good(g, gt, level, x, c)
    ensures forall n | 0 <= n <= x :: Below(g, level, n) == Below(f, level, n)
    ensures SameOn(f, g, Below(f, level, x))
  {
    hide Down, Extends, InnerOk, SameOn, LeavesOk;
    forall n | 0 <= n < x ensures SameOn(f, g, Below(f, level, n))
                          ensures InnerOk(g, gt, Below(f, level, n), x - n, c, c.maxKeys / 2)
    {
      InnerFrame(f, ht, g, gt, 0, x, Below(f, level, n), x - n, c, c.maxKeys / 2);
    }
    forall n | 0 <= n <= x ensures Below(g, level, n) == Below(f, level, n) {
      BelowFrame(f, g, level, n);
    }
    LeavesFrame(f, ht, g, gt, x, Below(f, level, x), c);
  }

  ghost function MinAt(n: nat, c: Config): int {
    if n == 0 then 1 else c.maxKeys / 2
  }

  /** Changing pages below a level does not matter above it. */
  lemma UpperFrame(f: File, ht: seq<nat>, g: File, gt: seq<nat>, d: nat, h: nat, c: Config)
    requires UpperOk(f, ht, d, h, c) && Extends(f, ht, g, gt, h - d + 1, h)
    ensures UpperOk(g, gt, d, h, c)
    ensures forall n | 0 <= n <= d :: Below(g, RootLevel(), n) == Below(f, RootLevel(), n)
  {
    hide Down, Extends, InnerOk, SameOn, RootLevel;
    forall n | 0 <= n < d ensures SameOn(f, g, Below(f, RootLevel(), n))
                          ensures InnerOk(g, gt, Below(f, RootLevel(), n), h - n, c, MinAt(n, c))
    {
      InnerFrame(f, ht, g, gt, h - d + 1, h, Below(f, RootLevel(), n), h - n, c, MinAt(n, c));
    }
    forall n | 0 <= n <= d ensures Below(g, RootLevel(), n) == Below(f, RootLevel(), n) {
      BelowFrame(f, g, RootLevel(), n);
    }
  }

  // ---- joining the upper and the lower part ----

  /** The upper d levels and everything below them, in one file, are a tree. */
  lemma Joined(f: File, ht: seq<nat>, d: nat, h: nat, c: Config)
    requires ConfigOk(c) && UpperOk(f, ht, d, h, c) && 1 <= d
    requires Good(f, ht, Below(f, RootLevel(), d), h - d, c)
    ensures TreeOk(f, ht, h, c)
    ensures Leaves(f, h) == Below(f, Below(f, RootLevel(), d), h - d)
  {
    hide Down, InnerOk, LeavesOk, RootLevel;
    var mid := Below(f, RootLevel(), d);
    forall n | 0 <= n < h ensures InnerOk(f, ht, Below(f, RootLevel(), n), h - n, c, MinAt(n, c)) {
      if n >= d {
        BelowAdd(f, RootLevel(), d, n - d);
        assert InnerOk(f, ht, Below(f, mid, n - d), h - d - (n - d), c, c.maxKeys / 2);
      }
    }
    BelowAdd(f, RootLevel(), d, h - d);
  }

  // ---- a node takes in one more child ----

  lemma NodeItemsInsert(n: Node, lower: Bound, o: nat, k: Key, r: int)
    requires o <= |n.pairs|
    ensures NodeItems(n.(pairs := InsertPair(n.pairs, o, Pair(k, r))), lower)
            == AddAfter(NodeItems(n, lower), o, Item(r, At(k)))
  {
    var a := NodeItems(n.(pairs := InsertPair(n.pairs, o, Pair(k, r))), lower);
    var b := AddAfter(NodeItems(n, lower), o, Item(r, At(k)));
    forall i | 0 <= i < |a| ensures a[i] == b[i] {
    }
  }

  /** The two halves of a split node, one after the other, have the children of the whole. */
  lemma NodeItemsSplit(n: Node, lower: Bound, h: nat)
    requires h < |n.pairs|
    ensures NodeItems(n.(pairs := n.pairs[..h]), lower)
            + NodeItems(n.(first := n.pairs[h].child, pairs := n.pairs[h + 1..]), At(n.pairs[h].key))
            == NodeItems(n, lower)
  {
    var a := NodeItems(n.(pairs := n.pairs[..h]), lower);
    var b := NodeItems(n.(first := n.pairs[h].child, pairs := n.pairs[h + 1..]), At(n.pairs[h].key));
    var t := NodeItems(n, lower);
    forall i | 0 <= i < |t| ensures (a + b)[i] == t[i] {
    }
  }

  /** Position q of a level holds page p with node n, and child o of it is at position x of
      the level below. */
  ghost predicate ChildPos(f: File, level: seq<Item>, q: nat, p: int, n: Node, o: nat, x: nat) {
    && q < |level| && level[q].page == p && IsNode(f, p) && f[p].node == n
    && o <= |n.pairs| && x == Start(f, level, q) + o
  }

  /** Only position q has other children in g than in f. */
  lemma KidListsSet(f: File, g: File, level: seq<Item>, q: nat)
    requires q < |level|
    requires forall i | 0 <= i < |level| && i != q :: Kids(g, level[i]) == Kids(f, level[i])
    ensures KidLists(g, level) == KidLists(f, level)[..q] + [Kids(g, level[q])] + KidLists(f, level)[q + 1..]
  {
    hide Kids;
  }

  /** Only page p of the file differs, and only one position of the level holds it. */
  lemma OnlyOne(f: File, ht: seq<nat>, level: seq<Item>, g: nat, q: nat, pg: Page)
    requires Placed(f, ht, level, g) && q < |level|
    ensures var f1 := f[level[q].page := pg];
            forall i | 0 <= i < |level| && i != q :: Kids(f1, level[i]) == Kids(f, level[i])
  {
    hide NodeItems;
    forall i | 0 <= i < |level| && i != q ensures level[i].page != level[q].page {
    }
  }

  /** The level below after node p took in the child r with key k after its child o. */
  lemma DownInsert(f: File, ht: seq<nat>, level: seq<Item>, g: nat, q: nat, p: int, n: Node, o: nat, x: nat,
          k: Key, r: int)
    requires Placed(f, ht, level, g) && ChildPos(f, level, q, p, n, o, x)
    ensures x < |Down(f, level)|
    ensures var f1 := f[p := IntPage(n.(pairs := InsertPair(n.pairs, o, Pair(k, r))))];
            Down(f1, level) == AddAfter(Down(f, level), x, Item(r, At(k)))
  {
    hide Placed, NodeItems, InsertPair, KidLists;
    var n1 := n.(pairs := InsertPair(n.pairs, o, Pair(k, r)));
    var f1 := f[p := IntPage(n1)];
    var s := Kids(f1, level[q]);
    assert s == AddAfter(Kids(f, level[q]), o, Item(r, At(k))) by {
      NodeItemsInsert(n, level[q].lower, o, k, r);
    }
    OnlyOne(f, ht, level, g, q, IntPage(n1));
    KidListsSet(f, f1, level, q);
    CatOne(s);
    CatAdd(KidLists(f, level), q, o, Item(r, At(k)), [s]);
    KidListsTake(f, level, q);
  }

  /** The two halves of node n after it took in (k, r) at offset o, and the key between. */
  datatype Halves = Halves(left: Node, key: Key, right: Node)

  ghost function SplitNode(n: Node, o: nat, k: Key, r: int): Halves
    requires o <= |n.pairs| && |n.pairs| >= 2
  {
    var all, h := InsertPair(n.pairs, o, Pair(k, r)), |n.pairs| / 2;
    Halves(n.(pairs := all[..h]), all[h].key, n.(first := all[h].child, pairs := all[h + 1..]))
  }

  lemma HalvesItems(n: Node, o: nat, k: Key, r: int, lower: Bound)
    requires o <= |n.pairs| && |n.pairs| >= 2
    ensures var s := SplitNode(n, o, k, r);
            NodeItems(s.left, lower) + NodeItems(s.right, At(s.key)) == AddAfter(NodeItems(n, lower), o, Item(r, At(k)))
  {
    hide NodeItems;
    NodeItemsInsert(n, lower, o, k, r);
    NodeItemsSplit(n.(pairs := InsertPair(n.pairs, o, Pair(k, r))), lower, |n.pairs| / 2);
  }

  lemma HalvesOk(n: Node, o: nat, k: Key, r: int, c: Config, min: int)
    requires ConfigOk(c) && NodeOk(n, c, min) && |n.pairs| == c.maxKeys && o <= |n.pairs|
    ensures NodeOk(SplitNode(n, o, k, r).left, c, c.maxKeys / 2)
    ensures NodeOk(SplitNode(n, o, k, r).right, c, c.maxKeys / 2)
  {
  }

  lemma KidListsSplit(f: File, g: File, level: seq<Item>, q: nat, it: Item)
    requires q < |level|
    requires forall i | 0 <= i < |level| && i != q :: Kids(g, level[i]) == Kids(f, level[i])
    ensures KidLists(g, AddAfter(level, q, it))
            == KidLists(f, level)[..q] + [Kids(g, level[q]), Kids(g, it)] + KidLists(f, level)[q + 1..]
  {
    hide Kids;
  }

  lemma OthersKept(f: File, ht: seq<nat>, level: seq<Item>, g: nat, q: nat, p: int, a: Page, b: Page)
    requires Placed(f, ht, level, g) && q < |level| && level[q].page == p
    ensures forall i | 0 <= i < |level| && i != q :: Kids(f[p := a] + [b], level[i]) == Kids(f, level[i])
  {
    hide NodeItems;
    forall i | 0 <= i < |level| && i != q ensures level[i].page != p {
    }
  }

  /** The level below after a full node p, taking in the child r with key k after its child
      o, split its children with a new page. */
  lemma DownSplit(f: File, ht: seq<nat>, level: seq<Item>, g: nat, q: nat, p: int, n: Node, o: nat, x: nat, k: Key,
          r: int)
    requires Placed(f, ht, level, g) && ChildPos(f, level, q, p, n, o, x) && |n.pairs| >= 2
    ensures x < |Down(f, level)|
    ensures var s := SplitNode(n, o, k, r);
            var f1 := f[p := IntPage(s.left)] + [IntPage(s.right)];
            Down(f1, AddAfter(level, q, Item(|f|, At(s.key)))) == AddAfter(Down(f, level), x, Item(r, At(k)))
  {
    hide NodeItems, KidLists, SplitNode, AddAfter;
    var s := SplitNode(n, o, k, r);
    var f1 := f[p := IntPage(s.left)] + [IntPage(s.right)];
    var it := Item(|f|, At(s.key));
    var a, b := Kids(f1, level[q]), Kids(f1, it);
    assert a + b == AddAfter(Kids(f, level[q]), o, Item(r, At(k))) by {
      HalvesItems(n, o, k, r, level[q].lower);
    }
    OthersKept(f, ht, level, g, q, p, IntPage(s.left), IntPage(s.right));
    hide Kids;
    KidListsSplit(f, f1, level, q, it);
    CatPair(a, b);
    CatAdd(KidLists(f, level), q, o, Item(r, At(k)), [a, b]);
    KidListsTake(f, level, q);
  }

  /** The two levels below a root that has just been split. */
  lemma DownRoot(f: File, n: Node, o: nat, k: Key, r: int)
    requires IsNode(f, 0) && f[0].node == n && |n.pairs| >= 2 && o <= |n.pairs|
    ensures o < |Down(f, RootLevel())|
    ensures var s := SplitNode(n, o, k, r);
            var root := Node(n.maxKeys, n.attrLength, |f| + 1, [Pair(s.key, |f|)]);
            var f1 := f[0 := IntPage(root)] + [IntPage(s.right), IntPage(s.left)];
            && Down(f1, RootLevel()) == [Item(|f| + 1, NegInf), Item(|f|, At(s.key))]
            && Down(f1, Down(f1, RootLevel())) == AddAfter(Down(f, RootLevel()), o, Item(r, At(k)))
  {
    hide SplitNode;
    var s := SplitNode(n, o, k, r);
    var root := Node(n.maxKeys, n.attrLength, |f| + 1, [Pair(s.key, |f|)]);
    var f1 := f[0 := IntPage(root)] + [IntPage(s.right), IntPage(s.left)];
    DownOne(f, Item(0, NegInf));
    DownOne(f1, Item(0, NegInf));
    var two := [Item(|f| + 1, NegInf), Item(|f|, At(s.key))];
    assert NodeItems(root, NegInf) == two;
    DownTwo(f1, two[0], two[1]);
    HalvesItems(n, o, k, r, NegInf);
  }

  lemma StartZero(f: File, level: seq<Item>)
    ensures Start(f, level, 0) == 0
  {
    assert KidLists(f, level[..0]) == [];
  }

  lemma DownOne(f: File, it: Item)
    ensures Down(f, [it]) == Kids(f, it)
  {
    hide Kids;
    assert KidLists(f, [it]) == [Kids(f, it)];
    CatOne(Kids(f, it));
  }

  lemma DownTwo(f: File, a: Item, b: Item)
    ensures Down(f, [a, b]) == Kids(f, a) + Kids(f, b)
  {
    hide Kids;
    assert KidLists(f, [a, b]) == [Kids(f, a), Kids(f, b)];
    CatPair(Kids(f, a), Kids(f, b));
  }

  // ---- a page waiting to be added to its parent ----

  ghost function PendingLevel(f: File, d: nat, x: nat, k: Key, r: int): seq<Item> {
    var level := Below(f, RootLevel(), d);
    if x < |level| then AddAfter(level, x, Item(r, At(k))) else []
  }

  /** The leaves as they will be. */
  ghost function PendingLeaves(f: File, d: nat, h: nat, x: nat, k: Key, r: int): seq<Item> {
    if d <= h then Below(f, PendingLevel(f, d, x, k, r), h - d) else []
  }

  /** Page r, with keys from k on, belongs right after position x of level d, which does not
      have it yet; with it there, everything from level d down would be in order. */
  ghost predicate Pending(f: File, ht: seq<nat>, d: nat, h: nat, c: Config, x: nat, k: Key, r: int) {
    && ConfigOk(c) && 1 <= d <= h && x < |Below(f, RootLevel(), d)|
    && UpperOk(f, ht, d, h, c)
    && Good(f, ht, PendingLevel(f, d, x, k, r), h - d, c)
  }


  /** The parent of position x of level d: its position q on level d - 1, its page p and the
      place o of x among its children. */
  ghost predicate Parent(f: File, d: nat, q: nat, p: int, o: nat, x: nat) {
    d >= 1 && IsNode(f, p) && ChildPos(f, Below(f, RootLevel(), d - 1), q, p, f[p].node, o, x)
  }

  /** With room in the parent, adding the pair there completes the tree. */
  lemma ParentTakes(f: File, ht: seq<nat>, d: nat, h: nat, c: Config, x: nat, k: Key, r: int, q: nat, p: int, o: nat)
    requires Pending(f, ht, d, h, c, x, k, r) && Parent(f, d, q, p, o, x)
    requires |f[p].node.pairs| < c.maxKeys
    ensures var n := f[p].node;
            var f1 := f[p := IntPage(n.(pairs := InsertPair(n.pairs, o, Pair(k, r))))];
            && TreeOk(f1, ht, h, c)
            && Leaves(f1, h) == PendingLeaves(f, d, h, x, k, r)
            && Extends(f, ht, f1, ht, 0, h - d)
  {
    hide Good, Down, NodeItems, RootLevel;
    var n := f[p].node;
    var n1 := n.(pairs := InsertPair(n.pairs, o, Pair(k, r)));
    var f1 := f[p := IntPage(n1)];
    var up := Below(f, RootLevel(), d - 1);
    assert InnerOk(f, ht, up, h - d + 1, c, MinAt(d - 1, c));
    assert ht[up[q].page] == h - d + 1;
    DownInsert(f, ht, up, h - d + 1, q, p, n, o, x, k, r);
    GoodFrame(f, ht, f1, ht, PendingLevel(f, d, x, k, r), h - d, c);
    UpperFrame(f, ht, f1, ht, d - 1, h, c);
    assert InnerOk(f1, ht, up, h - d + 1, c, MinAt(d - 1, c));
    assert UpperOk(f1, ht, d, h, c);
    Joined(f1, ht, d, h, c);
  }

  /** A level of nodes over a good level is good. */
  lemma GoodAbove(f: File, ht: seq<nat>, level: seq<Item>, g: nat, c: Config)
    requires InnerOk(f, ht, level, g + 1, c, c.maxKeys / 2) && Good(f, ht, Down(f, level), g, c)
    ensures Good(f, ht, level, g + 1, c)
    ensures Below(f, level, g + 1) == Below(f, Down(f, level), g)
  {
    hide Down, InnerOk, LeavesOk;
    assert Below(f, level, 1) == Down(f, level);
    forall n | 0 <= n < g + 1 ensures InnerOk(f, ht, Below(f, level, n), g + 1 - n, c, c.maxKeys / 2) {
      if n > 0 {
        BelowAdd(f, level, 1, n - 1);
        assert InnerOk(f, ht, Below(f, Down(f, level), n - 1), g - (n - 1), c, c.maxKeys / 2);
      }
    }
    BelowAdd(f, level, 1, g);
  }

  /** The level of a split node, with the new page in it. */
  lemma SplitLevelOk(f: File, ht: seq<nat>, level: seq<Item>, g: nat, c: Config, min: int, q: nat, a: Node,
          b: Node, k: Key)
    requires InnerOk(f, ht, level, g, c, min) && q < |level| && c.maxKeys / 2 <= min
    requires NodeOk(a, c, c.maxKeys / 2) && NodeOk(b, c, c.maxKeys / 2)
    ensures InnerOk(f[level[q].page := IntPage(a)] + [IntPage(b)], ht + [g], AddAfter(level, q, Item(|f|, At(k))),
            g, c, c.maxKeys / 2)
  {
    var f1, t := f[level[q].page := IntPage(a)] + [IntPage(b)], AddAfter(level, q, Item(|f|, At(k)));
    forall i | 0 <= i < |t|
      ensures 0 <= t[i].page < |f1| && (ht + [g])[t[i].page] == g
      ensures f1[t[i].page].IntPage? && NodeOk(f1[t[i].page].node, c, c.maxKeys / 2)
    {
      if i != q + 1 { assert t[i] == level[if i <= q then i else i - 1]; }
    }
    AddAfterDistinct(level, q, Item(|f|, At(k)));
  }

  lemma AddAfterDistinct(level: seq<Item>, q: nat, it: Item)
    requires q < |level| && forall i | 0 <= i < |level| :: level[i].page != it.page
    requires forall i, j | 0 <= i < j < |level| :: level[i].page != level[j].page
    ensures var t := AddAfter(level, q, it); forall i, j | 0 <= i < j < |t| :: t[i].page != t[j].page
  {
    var t := AddAfter(level, q, it);
    forall i, j | 0 <= i < j < |t| ensures t[i].page != t[j].page {
      var x, y := if i <= q then i else i - 1, if j <= q then j else j - 1;
      assert i == q + 1 || t[i] == level[x];
      assert j == q + 1 || t[j] == level[y];
    }
  }

  /** A full parent that is not the root splits, and its new page waits one level up. */
  lemma ParentSplits(f: File, ht: seq<nat>, d: nat, h: nat, c: Config, x: nat, k: Key, r: int, q: nat, p: int, o: nat)
    requires Pending(f, ht, d, h, c, x, k, r) && Parent(f, d, q, p, o, x) && d >= 2
    requires |f[p].node.pairs| == c.maxKeys
    ensures var s := SplitNode(f[p].node, o, k, r);
            var f1, ht1 := f[p := IntPage(s.left)] + [IntPage(s.right)], ht + [h - d + 1];
            && Pending(f1, ht1, d - 1, h, c, q, s.key, |f|)
            && PendingLeaves(f1, d - 1, h, q, s.key, |f|) == PendingLeaves(f, d, h, x, k, r)
            && Extends(f, ht, f1, ht1, 0, h - d)
            && Extends(f, ht, f1, ht1, h - d + 2, h)
            && (forall n | 0 <= n <= d - 1 :: Below(f1, RootLevel(), n) == Below(f, RootLevel(), n))
  {
    hide Good, Down, NodeItems, RootLevel, SplitNode, AddAfter;
    var n := f[p].node;
    var s := SplitNode(n, o, k, r);
    var g := h - d + 1;
    var f1, ht1 := f[p := IntPage(s.left)] + [IntPage(s.right)], ht + [g];
    var up := Below(f, RootLevel(), d - 1);
    assert InnerOk(f, ht, up, g, c, c.maxKeys / 2);
    assert ht[up[q].page] == g && NodeOk(n, c, c.maxKeys / 2);
    var level1 := AddAfter(up, q, Item(|f|, At(s.key)));
    DownSplit(f, ht, up, g, q, p, n, o, x, k, r);
    HalvesOk(n, o, k, r, c, c.maxKeys / 2);
    SplitLevelOk(f, ht, up, g, c, c.maxKeys / 2, q, s.left, s.right, s.key);
    GoodFrame(f, ht, f1, ht1, PendingLevel(f, d, x, k, r), h - d, c);
    GoodAbove(f1, ht1, level1, h - d, c);
    UpperFrame(f, ht, f1, ht1, d - 1, h, c);
  }

  /** A full root splits: page 0 becomes a new root over the halves, one level higher. */
  lemma RootSplits(f: File, ht: seq<nat>, h: nat, c: Config, x: nat, k: Key, r: int, o: nat)
    requires Pending(f, ht, 1, h, c, x, k, r) && Parent(f, 1, 0, 0, o, x)
    requires |f[0].node.pairs| == c.maxKeys
    ensures var n := f[0].node;
            var s := SplitNode(n, o, k, r);
            var root := Node(n.maxKeys, n.attrLength, |f| + 1, [Pair(s.key, |f|)]);
            var f1, ht1 := f[0 := IntPage(root)] + [IntPage(s.right), IntPage(s.left)], ht[0 := h + 1] + [h, h];
            && TreeOk(f1, ht1, h + 1, c)
            && Leaves(f1, h + 1) == PendingLeaves(f, 1, h, x, k, r)
            && Extends(f, ht, f1, ht1, 0, h - 1)
  {
    hide Good, Down, NodeItems, SplitNode, AddAfter;
    var n := f[0].node;
    var s := SplitNode(n, o, k, r);
    var root := Node(n.maxKeys, n.attrLength, |f| + 1, [Pair(s.key, |f|)]);
    var f1, ht1 := f[0 := IntPage(root)] + [IntPage(s.right), IntPage(s.left)], ht[0 := h + 1] + [h, h];
    assert InnerOk(f, ht, Below(f, RootLevel(), 0), h, c, 1);
    assert ht[RootLevel()[0].page] == h;
    assert NodeOk(n, c, 1);
    HalvesOk(n, o, k, r, c, 1);
    DownRoot(f, n, o, k, r);
    var two := Down(f1, RootLevel());
    StartZero(f, RootLevel());
    assert Below(f, RootLevel(), 1) == Down(f, RootLevel());
    GoodFrame(f, ht, f1, ht1, PendingLevel(f, 1, x, k, r), h - 1, c);
    assert InnerOk(f1, ht1, two, h, c, c.maxKeys / 2);
    GoodAbove(f1, ht1, two, h - 1, c);
    assert InnerOk(f1, ht1, Below(f1, RootLevel(), 0), h + 1, c, 1);
    assert Below(f1, RootLevel(), 1) == two;
    assert UpperOk(f1, ht1, 1, h + 1, c);
    Joined(f1, ht1, 1, h + 1, c);
  }
}
