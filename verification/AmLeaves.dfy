/** The leaf level of the tree: its contents are sorted, and changing or splitting one leaf
    changes them only there. */
module AmLeaves {
  import opened Sequences
  import opened AmEntries
  import opened AmLeafPage
  import opened AmNode
  import opened AmTree
  import opened AmSplit

  ghost function Before(f: File, level: seq<Item>, q: nat): seq<Entry>
    requires q <= |level|
  {
    Cat(EntryLists(f, level)[..q])
  }

  ghost function After(f: File, level: seq<Item>, q: nat): seq<Entry>
    requires q < |level|
  {
    Cat(EntryLists(f, level)[q + 1..])
  }

  lemma ContentsAround(f: File, level: seq<Item>, q: nat)
    requires q < |level|
    ensures Contents(f, level) == Before(f, level, q) + LeafEntries(f, level[q].page) + After(f, level, q)
  {
    CatSplit(EntryLists(f, level), q);
  }

  /** A key of a leaf is in the range of its position. */
  lemma EntryInRange(f: File, ht: seq<nat>, level: seq<Item>, c: Config, i: nat, j: nat)
    requires LeavesOk(f, ht, level, c) && i < |level| && j < |LeafEntries(f, level[i].page)|
    ensures InRange(level, i, LeafEntries(f, level[i].page)[j].key)
  {
    hide LeafOk, InRange, Sorted, NextPage;
    assert LeafOkAt(f, level, i, c);
  }

  lemma RangesApart(level: seq<Item>, i: nat, q: nat, a: Key, b: Key)
    requires LowersRise(level) && i < q < |level| && InRange(level, i, a) && InRange(level, q, b)
    ensures a < b
  {
    if i + 1 < q {
      assert Less(level[i + 1].lower, level[q].lower);
    }
  }

  /** A key in the range of position q is above all keys before it and below all after it. */
  lemma SidesApart(f: File, ht: seq<nat>, level: seq<Item>, c: Config, q: nat, k: Key)
    requires LeavesOk(f, ht, level, c) && q < |level| && InRange(level, q, k)
    ensures AllBelow(Before(f, level, q), k) && AllAbove(After(f, level, q), k)
  {
    hide LeafOkAt, InRange, LeafEntries;
    var ls: seq<seq<Entry>> := EntryLists(f, level);
    forall x | 0 <= x < |Before(f, level, q)| ensures Before(f, level, q)[x].key < k {
      var i, j := CatFrom(ls[..q], x);
      EntryInRange(f, ht, level, c, i, j);
      RangesApart(level, i, q, ls[i][j].key, k);
    }
    forall x | 0 <= x < |After(f, level, q)| ensures k < After(f, level, q)[x].key {
      var i, j := CatFrom(ls[q + 1..], x);
      EntryInRange(f, ht, level, c, q + 1 + i, j);
      RangesApart(level, q, q + 1 + i, k, ls[q + 1 + i][j].key);
    }
  }

  lemma LeafSorted(f: File, ht: seq<nat>, level: seq<Item>, c: Config, i: nat)
    requires LeavesOk(f, ht, level, c) && i < |level|
    ensures Sorted(LeafEntries(f, level[i].page)) && NoEmptyList(LeafEntries(f, level[i].page))
  {
    hide InRange, Sorted, NextPage;
    assert LeafOkAt(f, level, i, c);
  }

  /** The contents of an index are in strictly increasing key order, with no empty list. */
  lemma ContentsSorted(f: File, ht: seq<nat>, level: seq<Item>, c: Config)
    requires LeavesOk(f, ht, level, c)
    ensures Sorted(Contents(f, level)) && NoEmptyList(Contents(f, level))
  {
    hide LeafOkAt, InRange, LeafEntries, Placed;
    var ls: seq<seq<Entry>> := EntryLists(f, level);
    var es := Contents(f, level);
    forall x | 0 <= x < |es| ensures es[x].recIds != [] {
      var i, j := CatFrom(ls, x);
      LeafSorted(f, ht, level, c, i);
    }
    forall x, y | 0 <= x < y < |es| ensures es[x].key < es[y].key {
      var i, j := CatFrom(ls, x);
      var u, v := CatFrom(ls, y);
      if i == u {
        LeafSorted(f, ht, level, c, i);
      } else if i < u {
        EntryInRange(f, ht, level, c, i, j);
        EntryInRange(f, ht, level, c, u, v);
        RangesApart(level, i, u, ls[i][j].key, ls[u][v].key);
      } else {
        CatPrefixes(ls, u, i);
        assert false;
      }
    }
  }

  lemma CatPrefixes<T>(ss: seq<seq<T>>, u: nat, i: nat)
    requires u < i <= |ss|
    ensures |Cat(ss[..u])| + |ss[u]| <= |Cat(ss[..i])|
  {
    CatSplit(ss[..i], u);
    assert ss[..i][..u] == ss[..u];
  }

  // ---- one leaf changed in place ----

  lemma EntryListsSet(f: File, g: File, level: seq<Item>, q: nat)
    requires q < |level|
    requires forall i | 0 <= i < |level| && i != q :: LeafEntries(g, level[i].page) == LeafEntries(f, level[i].page)
    ensures EntryLists(g, level) == EntryLists(f, level)[q := LeafEntries(g, level[q].page)]
  {
    hide LeafEntries;
  }

  /** lf could stand at position q of the level, but for its chain pointer. */
  ghost predicate Fits(level: seq<Item>, q: nat, c: Config, lf: Leaf)
    requires q < |level|
  {
    && LeafOk(lf) && lf.hdr.attrLength == c.attrLength && lf.hdr.maxKeys == c.maxKeys
    && Sorted(Entries(lf))
    && (forall j | 0 <= j < |Entries(lf)| :: InRange(level, q, Entries(lf)[j].key))
  }

  lemma LeafFits(f: File, ht: seq<nat>, level: seq<Item>, c: Config, q: nat)
    requires LeavesOk(f, ht, level, c) && q < |level|
    ensures IsLeaf(f, level[q].page) && Fits(level, q, c, f[level[q].page].leaf)
    ensures LeafEntries(f, level[q].page) == Entries(f[level[q].page].leaf)
    ensures f[level[q].page].leaf.hdr.nextLeafPage == NextPage(level, q)
    ensures ht[level[q].page] == 0
  {
    hide LeafOk, InRange, Sorted, NextPage;
    assert LeafOkAt(f, level, q, c);
  }

  lemma LeafChangedOk(f: File, ht: seq<nat>, level: seq<Item>, c: Config, q: nat, lf: Leaf)
    requires LeavesOk(f, ht, level, c) && q < |level| && Fits(level, q, c, lf)
    requires lf.hdr.nextLeafPage == NextPage(level, q)
    ensures 0 <= level[q].page < |f|
    ensures LeavesOk(f[level[q].page := LeafPage(lf)], ht, level, c)
  {
    hide LeafOk, InRange, Sorted, NextPage;
    PageInFile(f, ht, level, 0, q);
    var f1 := f[level[q].page := LeafPage(lf)];
    forall i | 0 <= i < |level| ensures LeafOkAt(f1, level, i, c) {
      assert LeafOkAt(f, level, i, c);
      if i != q { assert level[i].page != level[q].page; }
    }
  }

  lemma LeafChangedContents(f: File, ht: seq<nat>, level: seq<Item>, q: nat, lf: Leaf)
    requires Placed(f, ht, level, 0) && q < |level| && LeafOk(lf)
    ensures var f1 := f[level[q].page := LeafPage(lf)];
            && EntryLists(f1, level) == EntryLists(f, level)[q := Entries(lf)]
            && Contents(f1, level) == Before(f, level, q) + Entries(lf) + After(f, level, q)
  {
    hide LeafOk;
    var f1 := f[level[q].page := LeafPage(lf)];
    OthersSame(f, ht, level, 0, q, LeafPage(lf), []);
    assert f1 + [] == f1;
    EntryListsSet(f, f1, level, q);
    CatReplace(EntryLists(f, level), q, Entries(lf));
  }

  /** Replacing one leaf by one that fits keeps the tree and changes the contents there. */
  lemma LeafChanged(f: File, ht: seq<nat>, h: nat, c: Config, q: nat, lf: Leaf)
    requires TreeOk(f, ht, h, c) && q < |Leaves(f, h)| && Fits(Leaves(f, h), q, c, lf)
    requires lf.hdr.nextLeafPage == NextPage(Leaves(f, h), q)
    ensures var level := Leaves(f, h);
            var f1 := f[level[q].page := LeafPage(lf)];
            && TreeOk(f1, ht, h, c) && Leaves(f1, h) == level
            && Contents(f1, level) == Before(f, level, q) + Entries(lf) + After(f, level, q)
            && EntryLists(f1, level) == EntryLists(f, level)[q := Entries(lf)]
  {
    hide Fits, NextPage, Down, RootLevel, InnerOk, Contents, EntryLists;
    var level := Leaves(f, h);
    var f1 := f[level[q].page := LeafPage(lf)];
    LeafChangedOk(f, ht, level, c, q, lf);
    PageInFile(f, ht, level, 0, q);
    hide LeavesOk;
    UpperFrame(f, ht, f1, ht, h, h, c);
    LeafFitsOk(level, q, c, lf);
    LeafChangedContents(f, ht, level, q, lf);
  }

  lemma LeafFitsOk(level: seq<Item>, q: nat, c: Config, lf: Leaf)
    requires q < |level| && Fits(level, q, c, lf)
    ensures LeafOk(lf)
  {
  }

  lemma OthersSame(f: File, ht: seq<nat>, level: seq<Item>, g: nat, q: nat, pg: Page, more: seq<Page>)
    requires Placed(f, ht, level, g) && q < |level|
    ensures var f1 := f[level[q].page := pg] + more;
            && f1[..|f|] == f[level[q].page := pg]
            && forall i | 0 <= i < |level| && i != q :: LeafEntries(f1, level[i].page) == LeafEntries(f, level[i].page)
  {
    hide LeafOk;
    forall i | 0 <= i < |level| && i != q ensures level[i].page != level[q].page {
    }
  }

  lemma CatReplace<T>(ss: seq<seq<T>>, q: nat, s: seq<T>)
    requires q < |ss|
    ensures Cat(ss[q := s]) == Cat(ss[..q]) + s + Cat(ss[q + 1..])
  {
    CatSplit(ss[q := s], q);
    assert ss[q := s][..q] == ss[..q] && ss[q := s][q + 1..] == ss[q + 1..];
  }

  // ---- one leaf split ----

  /** left and right are the halves of the leaf at position q with k the first key of the
      right half, which will be page r; the chain runs from left through right. */
  ghost predicate SplitFits(level: seq<Item>, q: nat, c: Config, left: Leaf, right: Leaf, k: Key, r: int)
    requires q < |level|
  {
    && Fits(level, q, c, left) && Fits(level, q, c, right)
    && Entries(left) != [] && Entries(right) != [] && k == Entries(right)[0].key
    && AllBelow(Entries(left), k)
    && left.hdr.nextLeafPage == r && right.hdr.nextLeafPage == NextPage(level, q)
  }

  lemma SplitRise(level: seq<Item>, q: nat, c: Config, left: Leaf, right: Leaf, k: Key, r: int)
    requires LowersRise(level) && q < |level| && SplitFits(level, q, c, left, right, k, r)
    ensures LowersRise(AddAfter(level, q, Item(r, At(k))))
    ensures Less(level[q].lower, At(k))
  {
    hide LeafOk, Sorted;
    var t := AddAfter(level, q, Item(r, At(k)));
    assert InRange(level, q, Entries(left)[0].key) && Entries(left)[0].key < k;
    assert InRange(level, q, k);
    forall i, j | 0 <= i < j < |t| ensures Less(t[i].lower, t[j].lower) {
      var x, y := if i <= q then i else i - 1, if j <= q then j else j - 1;
      if x < q { assert Less(level[x].lower, level[q].lower); }
      if q + 1 < y { assert Less(level[q + 1].lower, level[y].lower); }
      if x < y { assert Less(level[x].lower, level[y].lower); }
    }
  }

  /** Ranges on the level with the new page: halved at k at position q, else unchanged. */
  lemma SplitRange(level: seq<Item>, q: nat, k: Key, r: int, i: nat, y: Key)
    requires q < |level| && i < |level| && InRange(level, i, y)
    ensures var t := AddAfter(level, q, Item(r, At(k)));
            && (i < q ==> InRange(t, i, y))
            && (i > q ==> InRange(t, i + 1, y))
            && (i == q && y < k ==> InRange(t, q, y))
            && (i == q && k <= y ==> InRange(t, q + 1, y))
  {
  }

  lemma SplitNext(level: seq<Item>, q: nat, it: Item, i: nat)
    requires q < |level| && i < |level|
    ensures var t := AddAfter(level, q, it);
            && (i < q ==> NextPage(t, i) == NextPage(level, i))
            && (i > q ==> NextPage(t, i + 1) == NextPage(level, i))
            && NextPage(t, q) == it.page && NextPage(t, q + 1) == NextPage(level, q)
  {
  }

  /** The leaf level with a split leaf and its new page in it. */
  lemma SplitLeavesOk(f: File, ht: seq<nat>, level: seq<Item>, c: Config, q: nat, left: Leaf, right: Leaf, k: Key,
                      f1: File, ht1: seq<nat>, t: seq<Item>)
    requires LeavesOk(f, ht, level, c) && q < |level| && SplitFits(level, q, c, left, right, k, |f|)
    requires f1 == f[level[q].page := LeafPage(left)] + [LeafPage(right)] && ht1 == ht + [0]
    requires t == AddAfter(level, q, Item(|f|, At(k)))
    ensures LeavesOk(f1, ht1, t, c)
    ensures Contents(f1, t) == Before(f, level, q) + (Entries(left) + Entries(right)) + After(f, level, q)
  {
    hide LeafOk, InRange, NextPage, LeafEntries, SplitFits, LeafOkAt, LowersRise, Contents, Before, After, Entries,
         Placed;
    SplitRise(level, q, c, left, right, k, |f|);
    SplitPlaced(f, ht, level, q, LeafPage(left), LeafPage(right), k);
    forall i | 0 <= i < |t| ensures LeafOkAt(f1, t, i, c) {
      SplitLeafOkAt(f, ht, level, c, q, left, right, k, f1, t, i);
    }
    SplitContents(f, ht, level, c, q, left, right, k, f1, t);
  }

  lemma SplitPlaced(f: File, ht: seq<nat>, level: seq<Item>, q: nat, a: Page, b: Page, k: Key)
    requires Placed(f, ht, level, 0) && q < |level|
    ensures Placed(f[level[q].page := a] + [b], ht + [0], AddAfter(level, q, Item(|f|, At(k))), 0)
  {
    var t := AddAfter(level, q, Item(|f|, At(k)));
    AddAfterDistinct(level, q, Item(|f|, At(k)));
    forall i | 0 <= i < |t| ensures 0 <= t[i].page < |f| + 1 && (ht + [0])[t[i].page] == 0 {
      if i != q + 1 { assert t[i] == level[if i <= q then i else i - 1]; }
    }
  }

  lemma OtherLeafOk(f: File, level: seq<Item>, c: Config, q: nat, k: Key, f1: File, x: nat, i: nat)
    requires x < |level| && q < |level| && x != q && i == (if x < q then x else x + 1) && LeafOkAt(f, level, x, c)
    requires IsLeaf(f1, level[x].page) && f1[level[x].page] == f[level[x].page]
    ensures LeafOkAt(f1, AddAfter(level, q, Item(|f|, At(k))), i, c)
  {
    hide LeafOk, Entries, Sorted, InRange, NextPage;
    SplitNext(level, q, Item(|f|, At(k)), x);
    var lf := f[level[x].page].leaf;
    forall j | 0 <= j < |Entries(lf)| ensures InRange(AddAfter(level, q, Item(|f|, At(k))), i, Entries(lf)[j].key) {
      SplitRange(level, q, k, |f|, x, Entries(lf)[j].key);
    }
  }

  lemma HalfLeafOk(level: seq<Item>, c: Config, q: nat, k: Key, r: int, lf: Leaf, f1: File, i: nat)
    requires q < |level| && Fits(level, q, c, lf) && (i == q || i == q + 1)
    requires forall j | 0 <= j < |Entries(lf)| :: Entries(lf)[j].key < k <==> i == q
    requires var t := AddAfter(level, q, Item(r, At(k)));
             IsLeaf(f1, t[i].page) && f1[t[i].page].leaf == lf && lf.hdr.nextLeafPage == NextPage(t, i)
    ensures LeafOkAt(f1, AddAfter(level, q, Item(r, At(k))), i, c)
  {
    hide LeafOk, Entries, Sorted, InRange, NextPage;
    forall j | 0 <= j < |Entries(lf)| ensures InRange(AddAfter(level, q, Item(r, At(k))), i, Entries(lf)[j].key) {
      SplitRange(level, q, k, r, q, Entries(lf)[j].key);
    }
  }

  lemma HalfKeys(level: seq<Item>, q: nat, c: Config, left: Leaf, right: Leaf, k: Key, r: int)
    requires q < |level| && SplitFits(level, q, c, left, right, k, r)
    ensures LeafOk(left) && LeafOk(right)
    ensures forall j | 0 <= j < |Entries(left)| :: Entries(left)[j].key < k
    ensures forall j | 0 <= j < |Entries(right)| :: k <= Entries(right)[j].key
  {
    hide LeafOk, InRange, NextPage, Entries;
  }

  lemma SplitLeafOkAt(f: File, ht: seq<nat>, level: seq<Item>, c: Config, q: nat, left: Leaf, right: Leaf, k: Key,
                      f1: File, t: seq<Item>, i: nat)
    requires LeavesOk(f, ht, level, c) && q < |level| && SplitFits(level, q, c, left, right, k, |f|)
    requires f1 == f[level[q].page := LeafPage(left)] + [LeafPage(right)]
    requires t == AddAfter(level, q, Item(|f|, At(k))) && i < |t|
    ensures LeafOkAt(f1, t, i, c)
  {
    hide LeafOk, InRange, NextPage, LowersRise, Entries, LeafOkAt, Fits, AllBelow;
    var x := if i <= q then i else i - 1;
    PageInFile(f, ht, level, 0, x);
    if x != q {
      assert level[x].page != level[q].page;
      LeafPageAt(f, level, c, x);
      OtherLeafOk(f, level, c, q, k, f1, x, i);
    } else {
      SplitNext(level, q, Item(|f|, At(k)), q);
      HalfKeys(level, q, c, left, right, k, |f|);
      HalfLeafOk(level, c, q, k, |f|, if i == q then left else right, f1, i);
    }
  }

  lemma LeafPageAt(f: File, level: seq<Item>, c: Config, x: nat)
    requires x < |level| && LeafOkAt(f, level, x, c)
    ensures IsLeaf(f, level[x].page)
  {
    hide LeafOk, Entries, InRange;
  }

  lemma SplitContents(f: File, ht: seq<nat>, level: seq<Item>, c: Config, q: nat, left: Leaf, right: Leaf, k: Key,
                      f1: File, t: seq<Item>)
    requires Placed(f, ht, level, 0) && q < |level| && SplitFits(level, q, c, left, right, k, |f|)
    requires f1 == f[level[q].page := LeafPage(left)] + [LeafPage(right)]
    requires t == AddAfter(level, q, Item(|f|, At(k)))
    ensures Contents(f1, t) == Before(f, level, q) + (Entries(left) + Entries(right)) + After(f, level, q)
  {
    hide LeafOk, InRange, Sorted, NextPage, Placed, LeafEntries, Entries, AllBelow, Fits;
    var ls: seq<seq<Entry>> := EntryLists(f, level);
    HalfKeys(level, q, c, left, right, k, |f|);
    var ab := [Entries(left), Entries(right)];
    PageInFile(f, ht, level, 0, q);
    LeafEntriesAre(f1, level[q].page);
    LeafEntriesAre(f1, |f|);
    OthersSame(f, ht, level, 0, q, LeafPage(left), [LeafPage(right)]);
    SplitLists(f, level, q, f1, t, Item(|f|, At(k)), ab);
    CatPair(ab[0], ab[1]);
    CatAround(ls, q, ab);
  }

  lemma SplitLists(f: File, level: seq<Item>, q: nat, f1: File, t: seq<Item>, it: Item, ab: seq<seq<Entry>>)
    requires q < |level| && t == AddAfter(level, q, it) && |ab| == 2
    requires LeafEntries(f1, level[q].page) == ab[0] && LeafEntries(f1, it.page) == ab[1]
    requires forall i | 0 <= i < |level| && i != q :: LeafEntries(f1, level[i].page) == LeafEntries(f, level[i].page)
    ensures EntryLists(f1, t) == EntryLists(f, level)[..q] + ab + EntryLists(f, level)[q + 1..]
  {
    hide LeafEntries;
    var ls: seq<seq<Entry>> := EntryLists(f, level);
    forall i | 0 <= i < |t| ensures EntryLists(f1, t)[i] == (ls[..q] + ab + ls[q + 1..])[i] {
    }
  }

  lemma CatAround(ls: seq<seq<Entry>>, q: nat, ab: seq<seq<Entry>>)
    requires q < |ls|
    ensures Cat(ls[..q] + ab + ls[q + 1..]) == Cat(ls[..q]) + Cat(ab) + Cat(ls[q + 1..])
  {
    CatConcat(ls[..q] + ab, ls[q + 1..]);
    CatConcat(ls[..q], ab);
  }

  lemma PageInFile(f: File, ht: seq<nat>, level: seq<Item>, g: nat, q: nat)
    requires Placed(f, ht, level, g) && q < |level|
    ensures 0 <= level[q].page < |f| && ht[level[q].page] == g
  {
  }

  // ---- the tree after a leaf split ----

  /** A leaf other than the root has been split: its new page waits for its parent. */
  lemma LeafSplits(f: File, ht: seq<nat>, h: nat, c: Config, q: nat, left: Leaf, right: Leaf, k: Key)
    requires TreeOk(f, ht, h, c) && h >= 1
    requires q < |Leaves(f, h)| && SplitFits(Leaves(f, h), q, c, left, right, k, |f|)
    ensures var level := Leaves(f, h);
            && 0 <= level[q].page < |f|
            && var f1, ht1 := f[level[q].page := LeafPage(left)] + [LeafPage(right)], ht + [0];
               && Pending(f1, ht1, h, h, c, q, k, |f|)
               && (forall n | 0 <= n <= h :: Below(f1, RootLevel(), n) == Below(f, RootLevel(), n))
               && Extends(f, ht, f1, ht1, 1, h)
               && PendingLeaves(f1, h, h, q, k, |f|) == AddAfter(level, q, Item(|f|, At(k)))
               && Contents(f1, AddAfter(level, q, Item(|f|, At(k))))
                  == Before(f, level, q) + (Entries(left) + Entries(right)) + After(f, level, q)
  {
    hide SplitFits, Down, RootLevel, InnerOk, Contents, EntryLists, Before, After, AddAfter;
    var level := Leaves(f, h);
    PageInFile(f, ht, level, 0, q);
    var f1, ht1 := f[level[q].page := LeafPage(left)] + [LeafPage(right)], ht + [0];
    var t := AddAfter(level, q, Item(|f|, At(k)));
    SplitLeavesOk(f, ht, level, c, q, left, right, k, f1, ht1, t);
    hide LeavesOk;
    UpperFrame(f, ht, f1, ht1, h, h, c);
    assert PendingLevel(f1, h, q, k, |f|) == t;
    assert Below(f1, t, 0) == t;
  }

  /** The root, a leaf, has been split: page 0 becomes a node over the two halves. */
  lemma RootLeafSplits(f: File, ht: seq<nat>, c: Config, left: Leaf, right: Leaf, k: Key)
    requires TreeOk(f, ht, 0, c) && SplitFits(RootLevel(), 0, c, left, right, k, |f|)
    ensures var root := Node(c.maxKeys, c.attrLength, |f| + 1, [Pair(k, |f|)]);
            && 1 <= |f|
            && var f1, ht1 := f[0 := IntPage(root)] + [LeafPage(right), LeafPage(left)], ht[0 := 1] + [0, 0];
               && TreeOk(f1, ht1, 1, c)
               && Leaves(f1, 1) == [Item(|f| + 1, NegInf), Item(|f|, At(k))]
               && Contents(f1, Leaves(f1, 1)) == Entries(left) + Entries(right)
  {
    hide LeafOk, SplitFits, LeavesOk, InnerOk, LeafEntries;
    var level := RootLevel();
    assert LeavesOk(f, ht, Below(f, level, 0), c);
    RootPage(f, ht, c);
    var root := Node(c.maxKeys, c.attrLength, |f| + 1, [Pair(k, |f|)]);
    var f1, ht1 := f[0 := IntPage(root)] + [LeafPage(right), LeafPage(left)], ht[0 := 1] + [0, 0];
    var two := [Item(|f| + 1, NegInf), Item(|f|, At(k))];
    NewRootDown(f1, root, two[0], two[1]);
    RootLeavesOk(c, left, right, k, |f|, f1, ht1, two);
    RootNodeOk(f1, ht1, c, root);
    assert Below(f1, level, 1) == two && Below(f1, level, 0) == level;
    TwoContents(f1, two[0], two[1]);
    assert LeafEntries(f1, |f| + 1) == Entries(left) && LeafEntries(f1, |f|) == Entries(right) by {
      LeafEntriesAre(f1, |f| + 1);
      LeafEntriesAre(f1, |f|);
    }
  }

  lemma LeafEntriesAre(f: File, p: int)
    requires IsLeaf(f, p) && LeafOk(f[p].leaf)
    ensures LeafEntries(f, p) == Entries(f[p].leaf)
  {
  }

  lemma RootPage(f: File, ht: seq<nat>, c: Config)
    requires LeavesOk(f, ht, RootLevel(), c)
    ensures 1 <= |f| == |ht| && ht[0] == 0
  {
    PageInFile(f, ht, RootLevel(), 0, 0);
  }

  lemma NewRootDown(f: File, root: Node, a: Item, b: Item)
    requires IsNode(f, 0) && f[0].node == root && a.lower == NegInf && b.lower.At?
    requires root.first == a.page && root.pairs == [Pair(b.lower.key, b.page)]
    ensures Down(f, RootLevel()) == [a, b]
  {
    DownOne(f, Item(0, NegInf));
    assert NodeItems(root, NegInf) == [a, b];
  }

  lemma RootNodeOk(f: File, ht: seq<nat>, c: Config, root: Node)
    requires |f| == |ht| >= 1 && ht[0] == 1 && f[0] == IntPage(root) && NodeOk(root, c, 1)
    ensures InnerOk(f, ht, RootLevel(), 1, c, 1)
  {
  }

  lemma TwoContents(f: File, a: Item, b: Item)
    ensures Contents(f, [a, b]) == LeafEntries(f, a.page) + LeafEntries(f, b.page)
  {
    hide LeafEntries;
    assert EntryLists(f, [a, b]) == [LeafEntries(f, a.page), LeafEntries(f, b.page)];
    CatPair(LeafEntries(f, a.page), LeafEntries(f, b.page));
  }

  lemma RootLeavesOk(c: Config, left: Leaf, right: Leaf, k: Key, n: nat, f1: File, ht1: seq<nat>, two: seq<Item>)
    requires SplitFits(RootLevel(), 0, c, left, right, k, n) && n >= 1
    requires |f1| == |ht1| == n + 2 && f1[n] == LeafPage(right) && f1[n + 1] == LeafPage(left)
    requires ht1[n] == ht1[n + 1] == 0
    requires two == [Item(n + 1, NegInf), Item(n, At(k))]
    ensures LeavesOk(f1, ht1, two, c)
    ensures LeafOk(left) && LeafOk(right)
  {
    hide LeafOk, Entries, AllBelow, InRange, Sorted, LeafOkAt, Fits;
    HalfKeys(RootLevel(), 0, c, left, right, k, n);
    RootHalfOk(c, left, f1, two, 0, k);
    RootHalfOk(c, right, f1, two, 1, k);
  }

  lemma RootHalfOk(c: Config, lf: Leaf, f1: File, two: seq<Item>, i: nat, k: Key)
    requires |two| == 2 && i < 2 && two[0].lower == NegInf && two[1].lower == At(k) && Fits(RootLevel(), 0, c, lf)
    requires forall j | 0 <= j < |Entries(lf)| :: Entries(lf)[j].key < k <==> i == 0
    requires IsLeaf(f1, two[i].page) && f1[two[i].page].leaf == lf && lf.hdr.nextLeafPage == NextPage(two, i)
    ensures LeafOkAt(f1, two, i, c)
  {
    hide LeafOk, Entries, Sorted, NextPage;
  }

  // ---- depth ----

  ghost function Pow2(n: nat): nat {
    if n == 0 then 1 else 2 * Pow2(n - 1)
  }

  lemma {:induction false} CatDoubles(ss: seq<seq<Item>>)
    requires forall i | 0 <= i < |ss| :: |ss[i]| >= 2
    ensures |Cat(ss)| >= 2 * |ss|
  {
    if ss != [] {
      assert forall i | 0 <= i < |ss| - 1 :: ss[1..][i] == ss[i + 1];
      CatDoubles(ss[1..]);
    }
  }

  lemma LevelDoubles(f: File, ht: seq<nat>, level: seq<Item>, g: nat, c: Config, min: int)
    requires InnerOk(f, ht, level, g, c, min)
    ensures |Down(f, level)| >= 2 * |level|
  {
    CatDoubles(KidLists(f, level));
  }

  lemma {:induction false} LevelGrows(f: File, ht: seq<nat>, h: nat, c: Config, n: nat)
    requires UpperOk(f, ht, h, h, c) && n <= h
    ensures |Below(f, RootLevel(), n)| >= Pow2(n)
  {
    hide InnerOk, Down;
    if n > 0 {
      LevelGrows(f, ht, h, c, n - 1);
      LevelDoubles(f, ht, Below(f, RootLevel(), n - 1), h - n + 1, c, MinAt(n - 1, c));
    }
  }

  /** The pages of a level are different, so there are no more of them than pages. */
  lemma LevelInFile(f: File, ht: seq<nat>, level: seq<Item>, g: nat)
    requires Placed(f, ht, level, g)
    ensures |level| <= |f|
  {
    Pigeonhole(seq(|level|, i requires 0 <= i < |level| => level[i].page), |f|);
  }

  /** A tree with h levels of nodes has at least 2^h leaves, so a file of fewer than 2^31
      pages has fewer than 31 levels of nodes: a search pushes at most 30 frames. */
  lemma DepthBound(f: File, ht: seq<nat>, h: nat, c: Config)
    requires TreeOk(f, ht, h, c)
    ensures Pow2(h) <= |Leaves(f, h)| <= |f|
    ensures |f| < 0x8000_0000 ==> h <= 30
  {
    hide InnerOk, LeafOkAt, Placed, LowersRise, Down;
    LevelGrows(f, ht, h, c, h);
    LevelInFile(f, ht, Leaves(f, h), 0);
    if h >= 31 {
      Pow2Monotone(31, h);
      Pow2At31();
    }
  }

  lemma Pow2At31()
    ensures Pow2(31) == 0x8000_0000
  {
    assert Pow2(8) == 0x100;
    assert Pow2(16) == 0x1_0000;
    assert Pow2(24) == 0x100_0000;
  }

  lemma {:induction false} Pow2Monotone(m: nat, n: nat)
    requires m <= n
    ensures Pow2(m) <= Pow2(n)
    decreases n
  {
    if m < n {
      Pow2Monotone(m, n - 1);
    }
  }
}
