/** The path stack of a search: which frames AM_Search pushes, and why they are still right
    for AM_AddtoParent after lower levels have split.  Also how an edit of one leaf, found by
    such a search, is an edit of the whole contents. */
module AmPaths {
  import opened AmEntries
  import opened AmLeafPage
  import opened AmTree
  import opened AmSplit
  import opened AmLeaves
  import opened AmHalves

  datatype Frame = Frame(pageNumber: int, offset: int)

  /** Frame j is the node on level j and the child taken there; pos[j] is the position of
      the path on level j. */
  ghost predicate PathOk(f: File, frames: seq<Frame>, pos: seq<nat>) {
    && |pos| == |frames| + 1 && pos[0] == 0
    && forall j | 0 <= j < |frames| ::
         0 <= frames[j].offset && Parent(f, j + 1, pos[j], frames[j].pageNumber, frames[j].offset, pos[j + 1])
  }

  lemma PathExtend(f: File, frames: seq<Frame>, pos: seq<nat>, fr: Frame, x: nat)
    requires PathOk(f, frames, pos) && 0 <= fr.offset
    requires Parent(f, |frames| + 1, pos[|frames|], fr.pageNumber, fr.offset, x)
    ensures PathOk(f, frames + [fr], pos + [x])
  {
    hide Parent;
  }

  lemma PathTop(f: File, frames: seq<Frame>, pos: seq<nat>)
    requires PathOk(f, frames, pos) && frames != []
    ensures var d := |frames|;
            && 0 <= frames[d - 1].offset
            && Parent(f, d, pos[d - 1], frames[d - 1].pageNumber, frames[d - 1].offset, pos[d])
  {
    hide Parent;
  }

  lemma ParentFrame(f: File, ht: seq<nat>, g: File, gt: seq<nat>, h: nat, c: Config, d: nat, q: nat, p: int,
          o: nat, x: nat, e: nat)
    requires UpperOk(f, ht, e, h, c) && 1 <= d <= e && Extends(f, ht, g, gt, h - e + 1, h)
    requires Below(g, RootLevel(), d - 1) == Below(f, RootLevel(), d - 1)
    requires Parent(f, d, q, p, o, x)
    ensures Parent(g, d, q, p, o, x)
  {
    hide Down, NodeOk;
    var level := Below(f, RootLevel(), d - 1);
    assert InnerOk(f, ht, level, h - d + 1, c, MinAt(d - 1, c));
    PageInFile(f, ht, level, h - d + 1, q);
    InnerFrame(f, ht, g, gt, h - e + 1, h, level, h - d + 1, c, MinAt(d - 1, c));
    SameOnTake(f, g, level, q);
    SameDown(f, g, level[..q]);
  }

  lemma SameOnTake(f: File, g: File, level: seq<Item>, q: nat)
    requires SameOn(f, g, level) && q <= |level|
    ensures SameOn(f, g, level[..q])
  {
  }

  /** The frames above level e stay right when only pages below change. */
  lemma PathFrame(f: File, ht: seq<nat>, g: File, gt: seq<nat>, h: nat, c: Config, e: nat, frames: seq<Frame>,
          pos: seq<nat>)
    requires UpperOk(f, ht, e, h, c) && Extends(f, ht, g, gt, h - e + 1, h)
    requires forall n | 0 <= n <= e :: Below(g, RootLevel(), n) == Below(f, RootLevel(), n)
    requires PathOk(f, frames, pos) && |frames| <= e
    ensures PathOk(g, frames, pos)
  {
    hide Parent, UpperOk, Extends;
    forall j | 0 <= j < |frames|
      ensures Parent(g, j + 1, pos[j], frames[j].pageNumber, frames[j].offset, pos[j + 1])
    {
      ParentFrame(f, ht, g, gt, h, c, j + 1, pos[j], frames[j].pageNumber, frames[j].offset, pos[j + 1], e);
    }
  }

  lemma PathPrefix(f: File, frames: seq<Frame>, pos: seq<nat>)
    requires PathOk(f, frames, pos) && frames != []
    ensures PathOk(f, frames[..|frames| - 1], pos[..|frames|])
  {
    hide Parent;
  }

  // ---- edits of a leaf as edits of the contents ----

  lemma InsertHere(f: File, ht: seq<nat>, h: nat, c: Config, q: nat, es: seq<Entry>, found: bool, i: nat, k: Key,
          r: RecId)
    requires TreeOk(f, ht, h, c) && q < |Leaves(f, h)| && InRange(Leaves(f, h), q, k)
    requires es == LeafEntries(f, Leaves(f, h)[q].page) && IsPlace(es, k, found, i)
    ensures var level := Leaves(f, h);
            Before(f, level, q) + InsertAt(es, i, found, k, r) + After(f, level, q)
            == InsertOn(Contents(f, level), k, r)
  {
    hide Contents, Before, After, LeafEntries, InRange, InsertAt, LeavesOk, UpperOk, IsPlace;
    var level := Leaves(f, h);
    LeafSorted(f, ht, level, c, q);
    SidesApart(f, ht, level, c, q, k);
    ContentsAround(f, level, q);
    InsertAtIsInsertOn(es, k, r, found, i);
    InsertOnConcat(Before(f, level, q), es, After(f, level, q), k, r);
  }

  lemma DeleteHere(f: File, ht: seq<nat>, h: nat, c: Config, q: nat, es: seq<Entry>, i: nat, k: Key, r: RecId)
    requires TreeOk(f, ht, h, c) && q < |Leaves(f, h)| && InRange(Leaves(f, h), q, k)
    requires es == LeafEntries(f, Leaves(f, h)[q].page) && IsPlace(es, k, true, i)
    ensures var level := Leaves(f, h);
            Before(f, level, q) + DeleteAt(es, i, r) + After(f, level, q) == DeleteOn(Contents(f, level), k, r)
  {
    hide Contents, Before, After, LeafEntries, InRange, DeleteAt, LeavesOk, UpperOk;
    var level := Leaves(f, h);
    LeafSorted(f, ht, level, c, q);
    SidesApart(f, ht, level, c, q, k);
    ContentsAround(f, level, q);
    DeleteAtIsDeleteOn(es, k, r, i);
    DeleteOnConcat(Before(f, level, q), es, After(f, level, q), k, r);
  }

  /** All keys of es are in the range of position q, in increasing order. */
  ghost predicate KeysFit(level: seq<Item>, q: nat, es: seq<Entry>)
    requires q < |level|
  {
    Sorted(es) && forall j | 0 <= j < |es| :: InRange(level, q, es[j].key)
  }

  lemma InsertKeysFit(level: seq<Item>, q: nat, es: seq<Entry>, found: bool, i: nat, k: Key, r: RecId)
    requires q < |level| && KeysFit(level, q, es) && InRange(level, q, k) && IsPlace(es, k, found, i)
    ensures KeysFit(level, q, InsertAt(es, i, found, k, r))
  {
    hide InRange;
    InsertAtSorted(es, k, r, found, i);
    var t := InsertAt(es, i, found, k, r);
    forall j | 0 <= j < |t| ensures InRange(level, q, t[j].key) {
      if j != i { assert t[j] == es[if found || j < i then j else j - 1]; }
    }
  }

  lemma DeleteKeysFit(level: seq<Item>, q: nat, es: seq<Entry>, i: nat, r: RecId)
    requires q < |level| && KeysFit(level, q, es) && i < |es|
    ensures KeysFit(level, q, DeleteAt(es, i, r))
  {
    hide InRange;
    DeleteAtCuts(es, i, r);
    var t, rs := DeleteAt(es, i, r), RemoveFirst(es[i].recIds, r);
    hide DeleteAt;
    forall j | 0 <= j < |t| ensures t[j].key == es[if rs == [] && j >= i then j + 1 else j].key {
    }
  }

  lemma FitsByKeys(level: seq<Item>, q: nat, c: Config, lf: Leaf)
    requires q < |level| && LeafOk(lf) && KeysFit(level, q, Entries(lf))
    requires lf.hdr.attrLength == c.attrLength && lf.hdr.maxKeys == c.maxKeys
    ensures Fits(level, q, c, lf)
  {
  }

  lemma FitsKeys(level: seq<Item>, q: nat, c: Config, lf: Leaf)
    requires q < |level| && Fits(level, q, c, lf)
    ensures LeafOk(lf) && KeysFit(level, q, Entries(lf))
    ensures lf.hdr.attrLength == c.attrLength && lf.hdr.maxKeys == c.maxKeys
  {
  }

  /** The halves of a full leaf can stand side by side where it stood. */
  lemma HalvesFit(level: seq<Item>, q: nat, c: Config, t: seq<Entry>, left: Leaf, right: Leaf, k: Key, r: int)
    requires q < |level| && KeysFit(level, q, t) && HalvesOf(t, left, right, k)
    requires left.hdr.attrLength == right.hdr.attrLength == c.attrLength
    requires left.hdr.maxKeys == right.hdr.maxKeys == c.maxKeys
    requires left.hdr.nextLeafPage == r && right.hdr.nextLeafPage == NextPage(level, q)
    ensures SplitFits(level, q, c, left, right, k, r)
  {
    hide LeafOk, InRange, NextPage, Entries, LeafAt;
    var a, b := Entries(left), Entries(right);
    forall j | 0 <= j < |a| ensures a[j] == t[j] {
    }
    forall j | 0 <= j < |b| ensures b[j] == t[|a| + j] {
    }
    assert Sorted(a) && Sorted(b);
    assert AllBelow(a, k) by {
      forall j | 0 <= j < |a| ensures a[j].key < k { assert t[j].key < t[|a|].key; }
    }
  }
}
