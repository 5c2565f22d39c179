/** The B+ tree as a shape over the pages of the index file.  The tree is seen level by
    level: a level is the sequence of its pages from left to right, each with the lower
    bound of the keys under it, and the level below is obtained by replacing each page by
    its children.  Page 0 is the root. */
module AmTree {
  import opened Sequences
  import opened AmEntries
  import opened AmLeafPage
  import opened AmNode

  datatype Page = LeafPage(leaf: Leaf) | IntPage(node: Node)
  datatype Bound = NegInf | At(key: Key)
  datatype Item = Item(page: int, lower: Bound)
  datatype Config = Config(attrLength: int, maxKeys: int)

  type File = seq<Page>

  // ---- levels ----

  ghost function NodeItems(n: Node, lower: Bound): (items: seq<Item>)
    ensures |items| == |n.pairs| + 1
    ensures forall i | 0 <= i < |items| ::
              items[i] == Item(ChildAt(n.first, n.pairs, i), if i == 0 then lower else At(n.pairs[i - 1].key))
  {
    seq(|n.pairs| + 1, i requires 0 <= i <= |n.pairs| =>
      Item(ChildAt(n.first, n.pairs, i), if i == 0 then lower else At(n.pairs[i - 1].key)))
  }

  ghost predicate IsNode(f: File, p: int) {
    0 <= p < |f| && f[p].IntPage?
  }

  ghost predicate IsLeaf(f: File, p: int) {
    0 <= p < |f| && f[p].LeafPage?
  }

  ghost function Kids(f: File, it: Item): seq<Item> {
    if IsNode(f, it.page) then NodeItems(f[it.page].node, it.lower) else []
  }

  ghost function KidLists(f: File, level: seq<Item>): (ks: seq<seq<Item>>)
    ensures |ks| == |level| && forall i | 0 <= i < |ks| :: ks[i] == Kids(f, level[i])
  {
    seq(|level|, i requires 0 <= i < |level| => Kids(f, level[i]))
  }

  /** The level below: each page replaced by its children. */
  ghost function Down(f: File, level: seq<Item>): seq<Item> {
    Cat(KidLists(f, level))
  }

  /** The level n steps below the given one. */
  ghost function Below(f: File, level: seq<Item>, n: nat): seq<Item> {
    if n == 0 then level else Down(f, Below(f, level, n - 1))
  }

  ghost function RootLevel(): seq<Item> { [Item(0, NegInf)] }

  /** Where the children of position q start on the level below. */
  ghost function Start(f: File, level: seq<Item>, q: nat): nat
    requires q <= |level|
  {
    |Down(f, level[..q])|
  }

  lemma KidListsTake(f: File, level: seq<Item>, q: nat)
    requires q <= |level|
    ensures KidLists(f, level[..q]) == KidLists(f, level)[..q]
  {
  }

  /** The children of position q, and where they are on the level below. */
  lemma DownAt(f: File, level: seq<Item>, q: nat, i: nat)
    requires q < |level| && i < |Kids(f, level[q])|
    ensures Start(f, level, q) + i < |Down(f, level)|
    ensures Down(f, level)[Start(f, level, q) + i] == Kids(f, level[q])[i]
  {
    KidListsTake(f, level, q);
    CatAt(KidLists(f, level), q, i);
  }

  lemma StartNext(f: File, level: seq<Item>, q: nat)
    requires q < |level|
    ensures Start(f, level, q + 1) == Start(f, level, q) + |Kids(f, level[q])|
  {
    KidListsTake(f, level, q);
    KidListsTake(f, level, q + 1);
    CatTake(KidLists(f, level), q);
  }

  lemma StartEnd(f: File, level: seq<Item>)
    ensures Start(f, level, |level|) == |Down(f, level)|
  {
    assert level[..|level|] == level;
  }

  /** Pages outside a level do not matter for the level below it. */
  lemma DownFrame(f: File, g: File, level: seq<Item>)
    requires forall i | 0 <= i < |level| :: Kids(f, level[i]) == Kids(g, level[i])
    ensures Down(f, level) == Down(g, level)
  {
    assert KidLists(f, level) == KidLists(g, level);
  }

  lemma {:induction false} BelowAdd(f: File, level: seq<Item>, a: nat, b: nat)
    ensures Below(f, Below(f, level, a), b) == Below(f, level, a + b)
    decreases b
  {
    hide Down;
    if b > 0 {
      BelowAdd(f, level, a, b - 1);
    }
  }

  // ---- lower bounds ----

  ghost predicate Less(a: Bound, b: Bound) {
    b.At? && (a.At? ==> a.key < b.key)
  }

  ghost predicate LowersRise(level: seq<Item>) {
    forall i, j | 0 <= i < j < |level| :: Less(level[i].lower, level[j].lower)
  }

  ghost predicate AtLeast(k: Key, lower: Bound) {
    lower.At? ==> lower.key <= k
  }

  /** k belongs under position q of the level. */
  ghost predicate InRange(level: seq<Item>, q: nat, k: Key)
    requires q < |level|
  {
    && AtLeast(k, level[q].lower)
    && (q + 1 < |level| ==> level[q + 1].lower.At? && k < level[q + 1].lower.key)
  }

  /** The children of each position of a level are found from its Start on. */
  lemma FirstKid(f: File, level: seq<Item>, q: nat)
    requires q < |level| && Kids(f, level[q]) != []
    ensures Start(f, level, q) < |Down(f, level)|
    ensures Down(f, level)[Start(f, level, q)].lower == level[q].lower
  {
    DownAt(f, level, q, 0);
  }

  lemma {:induction false} StartMonotone(f: File, level: seq<Item>, p: nat, q: nat)
    requires p < q <= |level|
    requires forall i | 0 <= i < |level| :: Kids(f, level[i]) != []
    ensures Start(f, level, p) < Start(f, level, q)
    decreases q
  {
    StartNext(f, level, q - 1);
    if p < q - 1 {
      StartMonotone(f, level, p, q - 1);
    }
  }

  /** If the level below rises, so does the level. */
  lemma RiseUp(f: File, level: seq<Item>)
    requires forall i | 0 <= i < |level| :: Kids(f, level[i]) != []
    requires LowersRise(Down(f, level))
    ensures LowersRise(level)
  {
    forall i, j | 0 <= i < j < |level| ensures Less(level[i].lower, level[j].lower) {
      FirstKid(f, level, i);
      FirstKid(f, level, j);
      StartMonotone(f, level, i, j);
    }
  }

  /** Following the child that BinSearch picks keeps the key in range. */
  lemma RangeDown(f: File, level: seq<Item>, q: nat, k: Key, o: nat)
    requires q < |level| && IsNode(f, level[q].page) && InRange(level, q, k)
    requires q + 1 < |level| ==> IsNode(f, level[q + 1].page)
    requires Rank(f[level[q].page].node.pairs, k, o)
    ensures var c := Start(f, level, q) + o;
            && c < |Down(f, level)|
            && Down(f, level)[c].page == ChildAt(f[level[q].page].node.first, f[level[q].page].node.pairs, o)
            && InRange(Down(f, level), c, k)
  {
    var c := Start(f, level, q) + o;
    var n := |f[level[q].page].node.pairs|;
    DownAt(f, level, q, o);
    StartNext(f, level, q);
    if o < n {
      DownAt(f, level, q, o + 1);
    } else if q + 1 < |level| {
      FirstKid(f, level, q + 1);
    } else {
      StartEnd(f, level);
    }
  }

  /** In a level whose next one rises, each node's keys rise. */
  lemma PairsRiseIn(f: File, level: seq<Item>, q: nat)
    requires q < |level| && IsNode(f, level[q].page) && LowersRise(Down(f, level))
    ensures PairsRise(f[level[q].page].node.pairs)
  {
    var ps := f[level[q].page].node.pairs;
    forall i, j | 0 <= i < j < |ps| ensures ps[i].key < ps[j].key {
      DownAt(f, level, q, i + 1);
      DownAt(f, level, q, j + 1);
      var below := Down(f, level);
      assert Less(below[Start(f, level, q) + i + 1].lower, below[Start(f, level, q) + j + 1].lower);
    }
  }

  // ---- the invariant ----

  ghost predicate ConfigOk(c: Config) {
    1 <= c.attrLength <= 255 && 2 <= c.maxKeys <= MAX_PAIRS && c.maxKeys % 2 == 0
  }

  ghost predicate NodeOk(n: Node, c: Config, min: int) {
    n.maxKeys == c.maxKeys && n.attrLength == c.attrLength && 1 <= min <= |n.pairs| <= c.maxKeys
  }

  /** The level's pages are pages of the file, each once, and all of height g. */
  ghost predicate Placed(f: File, ht: seq<nat>, level: seq<Item>, g: nat) {
    && |ht| == |f|
    && (forall i | 0 <= i < |level| :: 0 <= level[i].page < |f| && ht[level[i].page] == g)
    && (forall i, j | 0 <= i < j < |level| :: level[i].page != level[j].page)
  }

  ghost predicate InnerOk(f: File, ht: seq<nat>, level: seq<Item>, g: nat, c: Config, min: int) {
    && Placed(f, ht, level, g)
    && (forall i | 0 <= i < |level| :: f[level[i].page].IntPage? && NodeOk(f[level[i].page].node, c, min))
  }

  ghost function NextPage(level: seq<Item>, i: nat): int {
    if i + 1 < |level| then level[i + 1].page else AM_NULL_PAGE
  }

  /** The leaf at position i: well formed, sorted, its keys in range, chained to the next. */
  ghost predicate LeafOkAt(f: File, level: seq<Item>, i: nat, c: Config)
    requires i < |level|
  {
    && IsLeaf(f, level[i].page)
    && var lf := f[level[i].page].leaf;
       && LeafOk(lf)
       && lf.hdr.attrLength == c.attrLength && lf.hdr.maxKeys == c.maxKeys
       && lf.hdr.nextLeafPage == NextPage(level, i)
       && Sorted(Entries(lf))
       && (forall j | 0 <= j < |Entries(lf)| :: InRange(level, i, Entries(lf)[j].key))
  }

  ghost predicate LeavesOk(f: File, ht: seq<nat>, level: seq<Item>, c: Config) {
    && Placed(f, ht, level, 0)
    && LowersRise(level)
    && (forall i | 0 <= i < |level| :: LeafOkAt(f, level, i, c))
  }

  /** Everything from a level of height g down to the leaves is in order. */
  ghost predicate Good(f: File, ht: seq<nat>, level: seq<Item>, g: nat, c: Config) {
    && (forall n | 0 <= n < g :: InnerOk(f, ht, Below(f, level, n), g - n, c, c.maxKeys / 2))
    && LeavesOk(f, ht, Below(f, level, g), c)
  }

  /** The first d levels are in order; only the root may have few keys. */
  ghost predicate UpperOk(f: File, ht: seq<nat>, d: nat, h: nat, c: Config) {
    && d <= h
    && forall n | 0 <= n < d ::
         InnerOk(f, ht, Below(f, RootLevel(), n), h - n, c, if n == 0 then 1 else c.maxKeys / 2)
  }

  ghost function Leaves(f: File, h: nat): seq<Item> {
    Below(f, RootLevel(), h)
  }

  ghost predicate TreeOk(f: File, ht: seq<nat>, h: nat, c: Config) {
    && ConfigOk(c)
    && UpperOk(f, ht, h, h, c)
    && LeavesOk(f, ht, Leaves(f, h), c)
  }

  // ---- contents ----

  ghost function LeafEntries(f: File, p: int): seq<Entry> {
    if IsLeaf(f, p) && LeafOk(f[p].leaf) then Entries(f[p].leaf) else []
  }

  ghost function EntryLists(f: File, level: seq<Item>): (ls: seq<seq<Entry>>)
    ensures |ls| == |level| && forall i | 0 <= i < |ls| :: ls[i] == LeafEntries(f, level[i].page)
  {
    seq(|level|, i requires 0 <= i < |level| => LeafEntries(f, level[i].page))
  }

  ghost function Contents(f: File, level: seq<Item>): seq<Entry> {
    Cat(EntryLists(f, level))
  }
}
