/** How AM_AddtoParent climbs the path stack: each of its three cases, on files, and the run of
    them from a new leaf to the node that takes the last key in. */
module AmClimb {
  import opened AmEntries
  import opened AmNode
  import opened AmTree
  import opened AmSplit
  import opened AmLeaves
  import opened AmPaths

  const AM_ROOT := 0

  /** The node on top of the stack is the parent, and is as full as the tree allows at most. */
  lemma ParentNode(f: File, ht: seq<nat>, d: nat, h: nat, c: Config, x: nat, k: Key, r: int, q: nat, p: int, o: nat)
    requires Pending(f, ht, d, h, c, x, k, r) && Parent(f, d, q, p, o, x)
    ensures IsNode(f, p) && o <= |f[p].node.pairs| <= c.maxKeys == f[p].node.maxKeys
    ensures ConfigOk(c) && ht[p] == h - d + 1 && |ht| == |f| && 1 <= d <= h
    ensures q < |Below(f, RootLevel(), d - 1)| && Below(f, RootLevel(), d - 1)[q].page == p
  {
    hide Good, Down;
    var level := Below(f, RootLevel(), d - 1);
    assert InnerOk(f, ht, level, h - d + 1, c, MinAt(d - 1, c));
    PageInFile(f, ht, level, h - d + 1, q);
    assert NodeOk(f[p].node, c, MinAt(d - 1, c));
  }

  /** Page r, with keys from k on, is to be added to the node of the last frame. */
  ghost predicate Climb(f: File, ht: seq<nat>, h: nat, c: Config, frames: seq<Frame>, pos: seq<nat>, k: Key, r: int) {
    frames != [] && PathOk(f, frames, pos) && Pending(f, ht, |frames|, h, c, pos[|frames|], k, r)
  }

  ghost function ClimbLeaves(f: File, h: nat, frames: seq<Frame>, pos: seq<nat>, k: Key, r: int): seq<Item> {
    if |pos| == |frames| + 1 then PendingLeaves(f, |frames|, h, pos[|frames|], k, r) else []
  }

  /** File g is a tree with the given leaves, and the leaf pages of f are as they were. */
  ghost predicate Climbed(f: File, ht: seq<nat>, g: File, gt: seq<nat>, h: nat, c: Config, leaves: seq<Item>) {
    TreeOk(g, gt, h, c) && h >= 1 && Leaves(g, h) == leaves && Extends(f, ht, g, gt, 0, 0)
  }

  lemma ClimbTop(f: File, ht: seq<nat>, h: nat, c: Config, frames: seq<Frame>, pos: seq<nat>, k: Key, r: int)
    requires Climb(f, ht, h, c, frames, pos, k, r)
    ensures frames != [] && |pos| == |frames| + 1 && |frames| <= h
    ensures 1 <= |ht| && ConfigOk(c)
    ensures var top := frames[|frames| - 1];
            && IsNode(f, top.pageNumber)
            && 0 <= top.offset <= |f[top.pageNumber].node.pairs| <= c.maxKeys == f[top.pageNumber].node.maxKeys
  {
    hide Pending, Parent, Below;
    var d := |frames|;
    PathTop(f, frames, pos);
    ParentNode(f, ht, d, h, c, pos[d], k, r, pos[d - 1], frames[d - 1].pageNumber, frames[d - 1].offset);
  }

  /** AM_AddtoParent's three cases: room in the parent, a full root, a full node below it. */
  lemma StepTakes(f: File, ht: seq<nat>, h: nat, c: Config, frames: seq<Frame>, pos: seq<nat>, k: Key, r: int, f1: File)
    requires Climb(f, ht, h, c, frames, pos, k, r)
    requires frames != [] && var top := frames[|frames| - 1];
             && IsNode(f, top.pageNumber) && 0 <= top.offset <= |f[top.pageNumber].node.pairs| < c.maxKeys
             && var n := f[top.pageNumber].node;
                f1 == f[top.pageNumber := IntPage(n.(pairs := InsertPair(n.pairs, top.offset, Pair(k, r))))]
    ensures Climbed(f, ht, f1, ht, h, c, ClimbLeaves(f, h, frames, pos, k, r))
  {
    hide TreeOk, Leaves, PendingLeaves, Extends, Parent, Pending;
    var d, top := |frames|, frames[|frames| - 1];
    PathTop(f, frames, pos);
    ParentTakes(f, ht, d, h, c, pos[d], k, r, pos[d - 1], top.pageNumber, top.offset);
    PendingFacts(f, ht, d, h, c, pos[d], k, r);
    ExtendsLess(f, ht, f1, ht, h - d);
  }

  lemma StepRoot(f: File, ht: seq<nat>, h: nat, c: Config, frames: seq<Frame>, pos: seq<nat>, k: Key, r: int, f1: File)
    requires Climb(f, ht, h, c, frames, pos, k, r) && 2 <= c.maxKeys
    requires frames != [] && var top := frames[|frames| - 1];
             && top.pageNumber == AM_ROOT && IsNode(f, AM_ROOT)
             && 0 <= top.offset <= |f[AM_ROOT].node.pairs| == c.maxKeys
             && var n := f[AM_ROOT].node;
                var s := SplitNode(n, top.offset, k, r);
                var root := Node(n.maxKeys, n.attrLength, |f| + 1, [Pair(s.key, |f|)]);
                f1 == f[0 := IntPage(root)] + [IntPage(s.right), IntPage(s.left)]
    ensures 1 <= |ht| && Climbed(f, ht, f1, ht[0 := h + 1] + [h, h], h + 1, c, ClimbLeaves(f, h, frames, pos, k, r))
  {
    hide TreeOk, Leaves, PendingLeaves, Extends, SplitNode, Parent, Pending;
    var d, top := |frames|, frames[|frames| - 1];
    PathTop(f, frames, pos);
    RootIsTop(f, ht, d, h, c, pos[d], k, r, pos[d - 1], top.offset);
    RootSplits(f, ht, h, c, pos[d], k, r, top.offset);
    PendingFacts(f, ht, d, h, c, pos[d], k, r);
    ParentNode(f, ht, d, h, c, pos[d], k, r, pos[d - 1], AM_ROOT, top.offset);
    ExtendsLess(f, ht, f1, ht[0 := h + 1] + [h, h], h - 1);
  }

  lemma StepUp(f: File, ht: seq<nat>, h: nat, c: Config, frames: seq<Frame>, pos: seq<nat>, k: Key, r: int,
          key: Key, f1: File)
    requires Climb(f, ht, h, c, frames, pos, k, r) && 2 <= c.maxKeys && |frames| <= h && |pos| == |frames| + 1
    requires frames != [] && var top := frames[|frames| - 1];
             && top.pageNumber != AM_ROOT && IsNode(f, top.pageNumber)
             && 0 <= top.offset <= |f[top.pageNumber].node.pairs| == c.maxKeys
             && var s := SplitNode(f[top.pageNumber].node, top.offset, k, r);
                key == s.key && f1 == f[top.pageNumber := IntPage(s.left)] + [IntPage(s.right)]
    ensures var d := |frames|;
            var ht1 := ht + [h - d + 1];
            && Climb(f1, ht1, h, c, frames[..d - 1], pos[..d], key, |f|)
            && ClimbLeaves(f1, h, frames[..d - 1], pos[..d], key, |f|) == ClimbLeaves(f, h, frames, pos, k, r)
            && Extends(f, ht, f1, ht1, 0, 0)
  {
    hide PendingLeaves, Extends, SplitNode, UpperOk, PathOk, Below, Good, Pending, Parent;
    var d, top := |frames|, frames[|frames| - 1];
    PathTop(f, frames, pos);
    NotRoot(f, ht, d, h, c, pos[d], k, r, pos[d - 1], top.pageNumber, top.offset);
    ParentSplits(f, ht, d, h, c, pos[d], k, r, pos[d - 1], top.pageNumber, top.offset);
    PendingFacts(f, ht, d, h, c, pos[d], k, r);
    var ht1 := ht + [h - d + 1];
    PathPrefix(f, frames, pos);
    UpperLess(f, ht, d, h, c);
    PathFrame(f, ht, f1, ht1, h, c, d - 1, frames[..d - 1], pos[..d]);
    ExtendsLess(f, ht, f1, ht1, h - d);
  }

  lemma ClimbTrans(f: File, ht: seq<nat>, f1: File, ht1: seq<nat>, g: File, gt: seq<nat>, h: nat, c: Config,
          leaves: seq<Item>)
    requires Extends(f, ht, f1, ht1, 0, 0) && Climbed(f1, ht1, g, gt, h, c, leaves)
    ensures Climbed(f, ht, g, gt, h, c, leaves)
  {
    hide TreeOk, Leaves;
    ExtendsTrans(f, ht, f1, ht1, g, gt);
  }

  lemma PendingFacts(f: File, ht: seq<nat>, d: nat, h: nat, c: Config, x: nat, k: Key, r: int)
    requires Pending(f, ht, d, h, c, x, k, r)
    ensures UpperOk(f, ht, d, h, c) && 1 <= d <= h && ConfigOk(c)
  {
  }

  lemma UpperLess(f: File, ht: seq<nat>, d: nat, h: nat, c: Config)
    requires UpperOk(f, ht, d, h, c) && d >= 1
    ensures UpperOk(f, ht, d - 1, h, c)
  {
    hide InnerOk;
  }

  lemma ExtendsLess(f: File, ht: seq<nat>, g: File, gt: seq<nat>, hi: int)
    requires Extends(f, ht, g, gt, 0, hi) && 0 <= hi
    ensures Extends(f, ht, g, gt, 0, 0)
  {
  }

  lemma ExtendsTrans(f: File, ht: seq<nat>, g: File, gt: seq<nat>, k: File, kt: seq<nat>)
    requires Extends(f, ht, g, gt, 0, 0) && Extends(g, gt, k, kt, 0, 0)
    ensures Extends(f, ht, k, kt, 0, 0)
  {
  }

  /** Page 0 is on the path only as the root. */
  lemma RootIsTop(f: File, ht: seq<nat>, d: nat, h: nat, c: Config, x: nat, k: Key, r: int, q: nat, o: nat)
    requires Pending(f, ht, d, h, c, x, k, r) && Parent(f, d, q, AM_ROOT, o, x)
    ensures d == 1 && q == 0
  {
    hide Good, Down;
    ParentNode(f, ht, d, h, c, x, k, r, q, AM_ROOT, o);
    assert InnerOk(f, ht, Below(f, RootLevel(), 0), h, c, MinAt(0, c));
    PageInFile(f, ht, Below(f, RootLevel(), 0), h, 0);
  }

  lemma NotRoot(f: File, ht: seq<nat>, d: nat, h: nat, c: Config, x: nat, k: Key, r: int, q: nat, p: int, o: nat)
    requires Pending(f, ht, d, h, c, x, k, r) && Parent(f, d, q, p, o, x) && p != AM_ROOT
    ensures d >= 2
  {
    hide Good, Down;
    assert Below(f, RootLevel(), 0) == [Item(AM_ROOT, NegInf)];
  }
}
