/** Lemmas for AM_Compact: the lists it has written so far stay intact while it writes
    the next one below them. */
module AmCompact {
  import opened Sequences
  import opened AmEntries
  import opened AmLeafPage

  /** u is start, start - CELL, start - 2 * CELL, ... */
  ghost predicate Descends(u: seq<int>, start: int) {
    forall v | 0 <= v < |u| :: u[v] == start - CELL * v
  }

  /** The first |u| recIds of s, copied to the cells of u, each pointing to the cell below. */
  ghost predicate Copied(from: seq<Cell>, s: seq<int>, to: seq<Cell>, u: seq<int>)
    requires |u| <= |s|
    requires forall v | 0 <= v < |s| :: 0 < s[v] < |from|
    requires forall v | 0 <= v < |u| :: 0 < u[v] < |to|
  {
    forall v | 0 <= v < |u| :: to[u[v]] == Cell(from[s[v]].recId, u[v] - CELL)
  }

  lemma CopyStep(from: seq<Cell>, s: seq<int>, a: seq<Cell>, u: seq<int>, start: int, o: int)
    requires |u| < |s| && Descends(u, start) && o == start - CELL * |u| && 0 < o < |a|
    requires forall v | 0 <= v < |s| :: 0 < s[v] < |from|
    requires forall v | 0 <= v < |u| :: 0 < u[v] < |a|
    requires Copied(from, s, a, u)
    ensures Descends(u + [o], start)
    ensures Copied(from, s, a[o := Cell(from[s[|u|]].recId, o - CELL)], u + [o])
  {
  }

  /** Ending the copy with a null pointer makes it a chain with the same recIds. */
  lemma CopiedIsChain(from: seq<Cell>, s: seq<int>, to: seq<Cell>, u: seq<int>, start: int)
    requires |u| == |s| > 0 && Descends(u, start)
    requires forall v | 0 <= v < |s| :: 0 < s[v] < |from|
    requires forall v | 0 <= v < |u| :: 0 < u[v] < |to|
    requires Copied(from, s, to, u)
    ensures var last := u[|u| - 1];
            var t := to[last := to[last].(next := AM_NULL)];
            IsChain(t, start, u) && RecIds(t, u) == RecIds(from, s)
  {
  }

  lemma MultisetLast(u: seq<int>)
    requires u != []
    ensures multiset(u) == multiset(u[..|u| - 1]) + multiset{u[|u| - 1]}
  {
    assert u == u[..|u| - 1] + [u[|u| - 1]];
  }

  lemma LastCellsStep(c: nat, u: seq<int>)
    requires u != [] && u[|u| - 1] == PF_PAGE_SIZE - CELL * (c + |u|)
    requires LastCells(c) + multiset(u[..|u| - 1]) == LastCells(c + |u| - 1)
    ensures LastCells(c) + multiset(u) == LastCells(c + |u|)
  {
    MultisetLast(u);
    assert LastCells(c + |u|) == LastCells(c + |u| - 1) + multiset{PF_PAGE_SIZE - CELL * (c + |u|)};
  }

  lemma {:induction false} LastCellsExtend(c: nat, u: seq<int>)
    requires Descends(u, PF_PAGE_SIZE - CELL * (c + 1))
    ensures LastCells(c) + multiset(u) == LastCells(c + |u|)
    decreases |u|
  {
    if u != [] {
      LastCellsExtend(c, u[..|u| - 1]);
      LastCellsStep(c, u);
    } else {
      assert multiset(u) == multiset{};
    }
  }

  /** One more list appended to those already written. */
  lemma AppendList(a: seq<Slot>, cs: seq<Cell>, b: seq<Slot>, ds: seq<Cell>, zs: seq<seq<int>>, u: seq<int>, k: Key)
    requires ListsOk(a, cs, zs) && |zs| < |a| == |b| && |cs| == |ds|
    requires forall j | 0 <= j < |zs| :: b[j] == a[j]
    requires forall i, j | 0 <= i < |zs| && 0 <= j < |zs[i]| :: ds[zs[i][j]] == cs[zs[i][j]]
    requires b[|zs|].key == k && IsChain(ds, b[|zs|].head, u)
    ensures ListsOk(b, ds, zs + [u])
    ensures EntriesIn(b, ds, zs + [u]) == EntriesIn(a, cs, zs) + [Entry(k, RecIds(ds, u))]
  {
    var ws := zs + [u];
    var es := EntriesIn(a, cs, zs) + [Entry(k, RecIds(ds, u))];
    forall i | 0 <= i < |ws| ensures IsChain(ds, b[i].head, ws[i]) && Entry(b[i].key, RecIds(ds, ws[i])) == es[i] {
      if i < |zs| {
        assert ws[i] == zs[i];
        assert RecIds(ds, zs[i]) == RecIds(cs, zs[i]);
      }
    }
    assert EntriesIn(b, ds, ws) == es;
  }

  lemma AboveCells(zs: seq<seq<int>>, c: nat, i: nat, j: nat)
    requires multiset(Cat(zs)) == LastCells(c) && i < |zs| && j < |zs[i]|
    ensures PF_PAGE_SIZE - CELL * c <= zs[i][j] <= PF_PAGE_SIZE - CELL
  {
    InCat(zs, i, zs[i][j]);
    LastCellsFacts(c, zs[i][j]);
  }

  /** The lists zs are in place and fill the end of the page. */
  ghost predicate Packed(slots: seq<Slot>, cells: seq<Cell>, zs: seq<seq<int>>) {
    ListsOk(slots, cells, zs) && multiset(Cat(zs)) == LastCells(|Cat(zs)|)
  }

  function CellBelow(n: int): int { PF_PAGE_SIZE - CELL * (n + 1) }

  lemma PackedStep(a: seq<Slot>, cs: seq<Cell>, ds: seq<Cell>, zs: seq<seq<int>>, u: seq<int>, start: int, k: Key)
    requires Packed(a, cs, zs) && |zs| < |a| && |cs| == |ds| == PF_PAGE_SIZE
    requires start == CellBelow(|Cat(zs)|) && Descends(u, start) && IsChain(ds, start, u)
    requires forall o | start < o < PF_PAGE_SIZE :: ds[o] == cs[o]
    ensures var b := a[|zs| := Slot(k, start)];
            && Packed(b, ds, zs + [u])
            && EntriesIn(b, ds, zs + [u]) == EntriesIn(a, cs, zs) + [Entry(k, RecIds(ds, u))]
  {
    var b := a[|zs| := Slot(k, start)];
    forall i, j | 0 <= i < |zs| && 0 <= j < |zs[i]| ensures ds[zs[i][j]] == cs[zs[i][j]] {
      AboveCells(zs, |Cat(zs)|, i, j);
    }
    AppendList(a, cs, b, ds, zs, u, k);
    CellsAppend(zs, u, start);
  }

  lemma CellsAppend(zs: seq<seq<int>>, u: seq<int>, start: int)
    requires multiset(Cat(zs)) == LastCells(|Cat(zs)|) && start == CellBelow(|Cat(zs)|) && Descends(u, start)
    ensures multiset(Cat(zs + [u])) == LastCells(|Cat(zs + [u])|)
  {
    hide Cat, LastCells, Descends;
    CatAppend(zs, u);
    MultisetSum(Cat(zs), u);
    DescendsFrom(u, start, |Cat(zs)|);
    LastCellsExtend(|Cat(zs)|, u);
  }

  lemma MultisetSum(f: seq<int>, u: seq<int>)
    ensures multiset(f + u) == multiset(f) + multiset(u) && |f + u| == |f| + |u|
  {
  }

  lemma DescendsFrom(u: seq<int>, start: int, n: nat)
    requires start == CellBelow(n) && Descends(u, start)
    ensures Descends(u, PF_PAGE_SIZE - CELL * (n + 1))
  {
  }

  lemma CatShorter(a: seq<seq<int>>, lo: nat, hi: nat)
    requires lo <= hi <= |a|
    ensures |Cat(a[lo..hi])| <= |Cat(a)|
  {
    var b, c, d := a[..lo], a[lo..hi], a[hi..];
    assert a == b + (c + d);
    CatConcat(b, c + d);
    CatConcat(c, d);
  }

  /** What AM_Compact has done when entries lo..i of a page with the given lists are on the
      page being written. */
  ghost predicate CompactState(es: seq<Entry>, lists: seq<seq<int>>, lo: nat, i: nat,
                               slots: seq<Slot>, cells: seq<Cell>, zs: seq<seq<int>>)
    requires lo <= i <= |lists| == |es|
  {
    && |slots| == MAX_SLOTS && |cells| == PF_PAGE_SIZE
    && |zs| == i - lo
    && |Cat(zs)| == |Cat(lists[lo..i])|
    && Packed(slots, cells, zs)
    && (forall m | 0 <= m < |zs| :: EntriesIn(slots, cells, zs)[m] == es[lo + m])
  }

  lemma CompactCounts(es: seq<Entry>, lists: seq<seq<int>>, lo: nat, i: nat,
                      slots: seq<Slot>, cells: seq<Cell>, zs: seq<seq<int>>)
    requires lo <= i <= |lists| == |es| && CompactState(es, lists, lo, i, slots, cells, zs)
    ensures |zs| == i - lo && |Cat(zs)| == |Cat(lists[lo..i])|
  {
  }

  lemma CompactStart(es: seq<Entry>, lists: seq<seq<int>>, lo: nat, slots: seq<Slot>, cells: seq<Cell>)
    requires lo <= |lists| == |es| && |slots| == MAX_SLOTS && |cells| == PF_PAGE_SIZE
    ensures CompactState(es, lists, lo, lo, slots, cells, [])
  {
    assert lists[lo..lo] == [];
    assert multiset(Cat<int>([])) == multiset{};
  }

  lemma SliceExtend<T>(s: seq<T>, lo: nat, i: nat)
    requires lo <= i < |s|
    ensures s[lo..i + 1] == s[lo..i] + [s[i]]
  {
  }

  lemma CompactStep(es: seq<Entry>, lists: seq<seq<int>>, lo: nat, i: nat, a: seq<Slot>, cs: seq<Cell>,
                    zs: seq<seq<int>>, k: Key, b: seq<Slot>, ds: seq<Cell>, u: seq<int>, start: int)
    requires lo <= i < |lists| == |es| <= MAX_SLOTS
    requires CompactState(es, lists, lo, i, a, cs, zs)
    requires |ds| == PF_PAGE_SIZE && |u| == |lists[i]|
    requires start == CellBelow(|Cat(zs)|) && Descends(u, start) && IsChain(ds, start, u)
    requires forall o | start < o < PF_PAGE_SIZE :: ds[o] == cs[o]
    requires es[i] == Entry(k, RecIds(ds, u))
    requires b == a[i - lo := Slot(k, start)]
    ensures CompactState(es, lists, lo, i + 1, b, ds, zs + [u])
    ensures |Cat(zs + [u])| == |Cat(zs)| + |u|
  {
    var ws := zs + [u];
    PackedStep(a, cs, ds, zs, u, start, k);
    CatAppend(zs, u);
    assert |Cat(ws)| == |Cat(lists[lo..i + 1])| by {
      SliceExtend(lists, lo, i);
      CatAppend(lists[lo..i], lists[i]);
    }
    var fs := EntriesIn(a, cs, zs);
    forall m | 0 <= m < |ws| ensures EntriesIn(b, ds, ws)[m] == es[lo + m] {
      if m < |zs| { assert EntriesIn(b, ds, ws)[m] == fs[m]; }
    }
  }

  lemma CompactDone(lf: Leaf, y: Layout, lo: nat, hi: nat, t: Leaf, zs: seq<seq<int>>)
    requires LeafAt(lf, y) && lo <= hi <= |y.lists|
    requires CompactState(EntriesAt(lf, y), y.lists, lo, hi, t.slots, t.cells, zs)
    requires t.hdr.attrLength == lf.hdr.attrLength && t.hdr.numinfreeList == 0 && t.hdr.numKeys == hi - lo
    requires t.hdr.freeListPtr == AM_NULL && t.hdr.recIdPtr == PF_PAGE_SIZE - CELL * |Cat(zs)|
    requires t.hdr.keyPtr == AM_SL + SlotBytes(|zs|, RecSize(lf.hdr.attrLength))
    ensures LeafAt(t, Layout(zs, []))
    ensures EntriesAt(t, Layout(zs, [])) == EntriesAt(lf, y)[lo..hi]
  {
    CatShorter(y.lists, lo, hi);
    assert EntriesIn(t.slots, t.cells, zs) == EntriesAt(lf, y)[lo..hi];
    PackedCounts(lf.hdr, y, zs, |Cat(zs)|, t.hdr);
  }

  lemma PackedCounts(h: LeafHeader, y: Layout, zs: seq<seq<int>>, c: nat, g: LeafHeader)
    requires Counted(h, y) && |zs| <= |y.lists| && c <= CellCount(y)
    requires |Cat(zs)| == c && multiset(Cat(zs)) == LastCells(c)
    requires g.attrLength == h.attrLength && g.numinfreeList == 0
    requires g.recIdPtr == PF_PAGE_SIZE - CELL * c && g.keyPtr == AM_SL + SlotBytes(|zs|, RecSize(h.attrLength))
    ensures Counted(g, Layout(zs, []))
  {
    SlotBytesMonotone(|zs|, |y.lists|, RecSize(h.attrLength));
    var e: seq<int> := [];
    assert multiset(Cat(zs)) + multiset(e) == multiset(Cat(zs));
  }
}
