/** What becomes of a page that a client changes while it is fixed and then unfixes clean. */
module PfLost {
  import opened Sequences
  import opened PfPool
  import opened PfStore
  import opened PfRun
  import opened PfChain
  import opened PfFs

  function Gets(ids: seq<Pid>): (es: seq<Event>)
    ensures |es| == |ids| && forall i | 0 <= i < |ids| :: es[i] == EGet(ids[i])
  {
    seq(|ids|, i requires 0 <= i < |ids| => EGet(ids[i]))
  }

  /** Pages that are there, x not among them. */
  ghost predicate Others(p: Pool, x: Pid, ids: seq<Pid>) {
    x !in ids && forall i | 0 <= i < |ids| :: Logical(p, ids[i]).Present?
  }

  ghost predicate Different(ids: seq<Pid>) {
    forall i, j | 0 <= i < j < |ids| :: ids[i] != ids[j]
  }

  // ---- x leaves the pool ----

  /** Getting other pages fixes them all, as long as x still has a frame. */
  lemma {:induction false} GetsFix(p: Pool, cap: nat, policy: int, x: Pid, ids: seq<Pid>)
    requires PoolOk(p, cap) && CleanOk(p) && !IsFixed(p, x) && Others(p, x, ids)
    ensures var t := After(p, cap, policy, Gets(ids));
            && PoolOk(t, cap) && CleanOk(t) && SameStore(p, t) && !IsFixed(t, x)
            && (Resident(t, x) ==> forall i | 0 <= i < |ids| :: IsFixed(t, ids[i]))
  {
    hide CleanOk, Get, Logical;
    var n := |ids| - 1;
    if ids != [] {
      assert Gets(ids)[..n] == Gets(ids[..n]);
      GetsFix(p, cap, policy, x, ids[..n]);
      var u := After(p, cap, policy, Gets(ids[..n]));
      GetKeeps(u, cap, policy, ids[n]);
      PresentThere(u, ids[n]);
      AllFixed(u, x);
    } else {
      assert Gets(ids) == [];
    }
  }

  lemma PresentThere(p: Pool, id: Pid)
    ensures Logical(p, id).Present? <==> Resident(p, id) || id in p.disk
  {
  }

  lemma AllFixed(p: Pool, x: Pid)
    ensures (forall i | 0 <= i < |p.used| :: p.used[i].fixed) && Resident(p, x) ==> IsFixed(p, x)
  {
  }

  /** As many other pages as there are frames leave none for x. */
  lemma Evicted(t: Pool, cap: nat, x: Pid, ids: seq<Pid>)
    requires PoolOk(t, cap) && Different(ids) && |ids| >= cap && x !in ids
    requires forall i | 0 <= i < |ids| :: IsFixed(t, ids[i])
    ensures !Resident(t, x)
  {
    if Resident(t, x) {
      var all := ids + [x];
      var places := seq(|all|, i requires 0 <= i < |all| => Find(t.used, all[i]));
      forall i, j | 0 <= i < j < |all| ensures places[i] != places[j] && places[j] < |t.used| && places[i] < |t.used| {
        assert all[i] != all[j];
      }
      Pigeonhole(places, |t.used|);
    }
  }

  // ---- the disk below x does not matter to the other pages ----

  ghost function OnDisk(p: Pool, x: Pid): Content { if x in p.disk then Present(p.disk[x]) else Absent }

  /** p over a disk that holds y as page x. */
  ghost function With(p: Pool, x: Pid, y: FPage): Pool { p.(disk := p.disk[x := y]) }

  /** The frame of x, if there is one, will not be written. */
  ghost predicate Droppable(p: Pool, x: Pid) {
    forall i | 0 <= i < |p.used| && p.used[i].id == x :: !p.used[i].dirty
  }

  lemma FrameApart(p: Pool, cap: nat, policy: int, x: Pid, y: FPage)
    requires Droppable(p, x)
    ensures var (error, t) := FrameTaken(p, cap, policy);
            && FrameTaken(With(p, x, y), cap, policy) == (error, With(t, x, y))
            && Droppable(t, x) && OnDisk(t, x) == OnDisk(p, x)
  {
    hide Victim;
    var v := Victim(p.used, policy);
    if v < |p.used| {
      var b := p.used[v];
      if b.id != x {
        assert p.disk[b.id := b.fpage][x := y] == p.disk[x := y][b.id := b.fpage];
      }
      WithoutFacts(p.used, v);
    }
  }

  lemma GetApart(p: Pool, cap: nat, policy: int, x: Pid, y: FPage, id: Pid)
    requires Droppable(p, x) && id != x
    ensures var (error, t) := Get(p, cap, policy, id);
            && Get(With(p, x, y), cap, policy, id) == (error, With(t, x, y))
            && Droppable(t, x) && OnDisk(t, x) == OnDisk(p, x)
  {
    hide FrameTaken, Find;
    FrameApart(p, cap, policy, x, y);
  }

  lemma {:induction false} GetsApart(p: Pool, cap: nat, policy: int, x: Pid, y: FPage, ids: seq<Pid>)
    requires Droppable(p, x) && x !in ids
    ensures var t := After(p, cap, policy, Gets(ids));
            && After(With(p, x, y), cap, policy, Gets(ids)) == With(t, x, y)
            && Droppable(t, x) && OnDisk(t, x) == OnDisk(p, x)
  {
    hide Get, Droppable, With;
    var n := |ids| - 1;
    if ids != [] {
      assert Gets(ids)[..n] == Gets(ids[..n]);
      GetsApart(p, cap, policy, x, y, ids[..n]);
      GetApart(After(p, cap, policy, Gets(ids[..n])), cap, policy, x, y, ids[n]);
    } else {
      assert Gets(ids) == [];
    }
  }

  /** A page that nobody has fixed and whose frame is clean, whatever the frame holds, is what the disk
      holds once as many other pages have been got as there are frames. */
  lemma Dropped(p: Pool, cap: nat, policy: int, x: Pid, y: FPage, ids: seq<Pid>)
    requires PoolOk(p, cap) && CleanOk(With(p, x, y)) && !IsFixed(p, x) && Droppable(p, x)
    requires Others(p, x, ids) && Different(ids) && |ids| >= cap
    ensures Logical(After(p, cap, policy, Gets(ids)), x) == OnDisk(p, x)
  {
    hide CleanOk, After, Droppable;
    var t := After(p, cap, policy, Gets(ids));
    GetsFix(With(p, x, y), cap, policy, x, ids);
    GetsApart(p, cap, policy, x, y, ids);
    if Resident(t, x) {
      Evicted(With(t, x, y), cap, x, ids);
    }
  }

  // ---- unfixing clean ----

  lemma {:induction false} AfterFirst(p: Pool, cap: nat, policy: int, e: Event, es: seq<Event>)
    ensures After(p, cap, policy, [e] + es) == After(Step(p, cap, policy, e).1, cap, policy, es)
  {
    var n := |es| - 1;
    if es != [] {
      assert ([e] + es)[..n + 1] == [e] + es[..n];
      AfterFirst(p, cap, policy, e, es[..n]);
    } else {
      assert ([e] + es)[..0] == [] && [e] + es == [e];
    }
  }

  /** The pool after a client has unfixed x clean and ids have been got. */
  ghost function AfterCleanUnfix(p: Pool, cap: nat, policy: int, x: Pid, ids: seq<Pid>): Pool {
    After(p, cap, policy, [EUnfix(x, false)] + Gets(ids))
  }

  lemma UnfixApart(p: Pool, cap: nat, x: Pid, y: FPage)
    requires PoolOk(p, cap) && CleanOk(p) && IsFixed(p, x) && Logical(p, x) == Present(y)
    requires !Disciplined(p, x, false)
    ensures var u := Unfix(p, x, false).1;
            && PoolOk(u, cap) && CleanOk(With(u, x, y)) && !IsFixed(u, x) && Droppable(u, x)
            && SameStore(p, u) && OnDisk(u, x) == OnDisk(p, x) != Present(y)
  {
    UnfixKeeps(p, cap, x, false);
    WithClean(p, x, y);
    UnfixKeeps(With(p, x, y), cap, x, false);
    var u := Unfix(p, x, false).1;
    assert Unfix(With(p, x, y), x, false).1 == With(u, x, y);
    forall i | 0 <= i < |u.used| && u.used[i].id == x ensures !u.used[i].dirty {
      assert u.used[0].id == x;
    }
  }

  lemma WithClean(p: Pool, x: Pid, y: FPage)
    requires CleanOk(p) && IsFixed(p, x) && Distinct(p.used)
    ensures CleanOk(With(p, x, y))
  {
    var t := With(p, x, y);
    forall i | 0 <= i < |p.used| ensures CleanAt(t, t.used[i]) {
      assert CleanAt(p, p.used[i]);
      FindAt(p.used, i);
    }
  }

  /** In a pool of any size, under any policy: a page that is unfixed clean keeps its content if and
      only if that keeps to the discipline; otherwise it goes back to what the disk holds. */
  lemma KeptIff(p: Pool, cap: nat, policy: int, x: Pid, ids: seq<Pid>)
    requires PoolOk(p, cap) && CleanOk(p) && IsFixed(p, x)
    requires Others(p, x, ids) && Different(ids) && |ids| >= cap
    ensures var t := AfterCleanUnfix(p, cap, policy, x, ids);
            && (Logical(t, x) == Logical(p, x) <==> Disciplined(p, x, false))
            && (!Disciplined(p, x, false) ==> Logical(t, x) == OnDisk(p, x))
  {
    hide CleanOk, After, Droppable, Disciplined, Unfix, OnDisk;
    var u := Unfix(p, x, false).1;
    AfterFirst(p, cap, policy, EUnfix(x, false), Gets(ids));
    UnfixKeeps(p, cap, x, false);
    if Disciplined(p, x, false) {
      GetsFix(u, cap, policy, x, ids);
    } else {
      var y := Logical(p, x).fpage;
      UnfixApart(p, cap, x, y);
      Dropped(u, cap, policy, x, y, ids);
    }
  }

  // ---- a page taken from the chain ----

  /** PF_AllocPage on a file with free pages leaves the frame of the page as it is, dirty or clean.
      When the client unfixes the page clean, it stays in use if the frame was dirty; if it was clean,
      the page goes back to being free on disk, while the chain no longer has it. */
  lemma TakenPageLost(p: Pool, policy: int, hdrs: map<int, Hdr>, chains: Chains, open: set<int>, fd: int, ids: seq<Pid>)
    requires FsOk(p, hdrs, chains, open) && fd in hdrs && fd in open && chains[fd] != []
    requires Get(p, PF_MAX_BUFS, policy, Pid(fd, hdrs[fd].firstfree)).0 == PFE_OK
    requires Others(p, Pid(fd, hdrs[fd].firstfree), ids) && Different(ids) && |ids| >= PF_MAX_BUFS
    ensures var hdr, n := hdrs[fd], hdrs[fd].firstfree;
            var id := Pid(fd, n);
            var hdr1 := hdr.(firstfree := NextFree(p, fd, n));
            var t := Get(p, PF_MAX_BUFS, policy, id).1;
            var u := Store(t, id, Logical(p, id).fpage.(nextfree := PF_PAGE_USED));
            var v := AfterCleanUnfix(u, PF_MAX_BUFS, policy, id, ids);
            && Logical(p, id).Present? && FsOk(u, hdrs[fd := hdr1], chains[fd := chains[fd][1..]], open)
            && InUse(u, hdr1, fd, n) && n !in chains[fd][1..] && IsFixed(t, id)
            && (InUse(v, hdr1, fd, n) <==> t.used[Find(t.used, id)].dirty)
            && (!InUse(v, hdr1, fd, n) ==> NextFree(v, fd, n) == hdr1.firstfree)
  {
    hide FsOk, CleanOk, Disciplined, Get, AfterCleanUnfix, Logical, NextFree, IsFixed, ChainOk;
    FirstOfChain(p, hdrs, chains, open, fd);
    var hdr, s, id := hdrs[fd], chains[fd], Pid(fd, hdrs[fd].firstfree);
    AllocFromChain(p, policy, hdrs, chains, open, fd);
    LinkOf(p, id);
    GetKeeps(p, PF_MAX_BUFS, policy, id);
    GetDisciplined(p, policy, id, false);
    var t := Get(p, PF_MAX_BUFS, policy, id).1;
    var x := Logical(p, id).fpage.(nextfree := PF_PAGE_USED);
    var u := Store(t, id, x);
    PoolOf(u, hdrs[fd := hdr.(firstfree := NextFree(p, fd, id.page))], chains[fd := s[1..]], open);
    StoredDisciplined(t, id, x);
    KeptIff(u, PF_MAX_BUFS, policy, id, ids);
    LinkOf(u, id);
    LinkOf(AfterCleanUnfix(u, PF_MAX_BUFS, policy, id, ids), id);
  }

  lemma PoolOf(p: Pool, hdrs: map<int, Hdr>, chains: Chains, open: set<int>)
    requires FsOk(p, hdrs, chains, open)
    ensures PoolOk(p, PF_MAX_BUFS) && CleanOk(p)
  {
  }

  lemma FirstOfChain(p: Pool, hdrs: map<int, Hdr>, chains: Chains, open: set<int>, fd: int)
    requires FsOk(p, hdrs, chains, open) && fd in hdrs && chains[fd] != []
    ensures var n := hdrs[fd].firstfree;
            && 0 <= n < hdrs[fd].numpages && n !in chains[fd][1..] && Logical(p, Pid(fd, n)).Present?
            && NextFree(p, fd, n) != PF_PAGE_USED
    ensures PoolOk(p, PF_MAX_BUFS) && CleanOk(p) && fd in chains
  {
    hide Logical, IsFixed, NextFree, CleanOk;
    assert FileOk(p, hdrs[fd], fd, chains[fd]);
    assert NextFree(p, fd, chains[fd][0]) == PageAt(chains[fd], 1);
  }

  lemma LinkOf(p: Pool, id: Pid)
    ensures var x := Logical(p, id);
            NextFree(p, id.fd, id.page) == if x.Present? then x.fpage.nextfree else PF_PAGE_USED
  {
    assert id == Pid(id.fd, id.page);
  }

  /** A page just got and then changed in memory is within the discipline only if its frame is dirty. */
  lemma StoredDisciplined(t: Pool, id: Pid, x: FPage)
    requires Distinct(t.used) && IsFixed(t, id) && Disciplined(t, id, false) && Logical(t, id) != Present(x)
    ensures var u := Store(t, id, x);
            && (Disciplined(u, id, false) <==> t.used[Find(t.used, id)].dirty)
            && (!Disciplined(u, id, false) ==> OnDisk(u, id) == Logical(t, id))
  {
    var i := Find(t.used, id);
    FindSet(t.used, i, t.used[i].(fpage := x), id);
  }

  // ---- the least file on which a page is lost ----

  const PAGES := PF_MAX_BUFS + 1

  /** Page 0 is free, and there are as many others as the pool has frames. */
  ghost function FileDisk(data: seq<int>): (d: Disk)
    ensures forall id :: id in d <==> id.fd == 0 && 0 <= id.page < PAGES
    ensures forall n | 0 <= n < PAGES ::
              d[Pid(0, n)] == FPage(if n == 0 then PF_PAGE_LIST_END else PF_PAGE_USED, data)
  {
    var ids := set n | 0 <= n < PAGES :: Pid(0, n);
    map id | id in ids :: FPage(if id.page == 0 then PF_PAGE_LIST_END else PF_PAGE_USED, data)
  }

  ghost function OtherPages(): seq<Pid> { seq(PF_MAX_BUFS, i => Pid(0, i + 1)) }

  /** The free page is allocated, unfixed clean, and the other pages are got: then it is neither in
      use nor on the chain, which is empty. */
  lemma PageLost(policy: int, data: seq<int>)
    ensures var p, hdr, id := Pool([], 0, 0, FileDisk(data)), Hdr(0, PAGES), Pid(0, 0);
            var t := Get(p, PF_MAX_BUFS, policy, id).1;
            var u := Store(t, id, FPage(PF_PAGE_USED, data));
            var v := AfterCleanUnfix(u, PF_MAX_BUFS, policy, id, OtherPages());
            && FsOk(p, map[0 := hdr], map[0 := [0]], {0})
            && FsOk(u, map[0 := hdr.(firstfree := PF_PAGE_LIST_END)], map[0 := []], {0}) && InUse(u, hdr, 0, 0)
            && !InUse(v, hdr, 0, 0)
  {
    hide After;
    var p, hdr, id := Pool([], 0, 0, FileDisk(data)), Hdr(0, PAGES), Pid(0, 0);
    forall n ensures Logical(p, Pid(0, n)).Present? <==> 0 <= n < PAGES {
    }
    assert FileOk(p, hdr, 0, [0]);
    assert map[0 := hdr][0 := hdr.(firstfree := PF_PAGE_LIST_END)] == map[0 := hdr.(firstfree := PF_PAGE_LIST_END)];
    var chain, rest: seq<int> := [0], [];
    assert chain[1..] == rest;
    assert map[0 := chain][0 := rest] == map[0 := rest];
    TakenPageLost(p, policy, map[0 := hdr], map[0 := [0]], {0}, 0, OtherPages());
  }
}
