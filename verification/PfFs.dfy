/** All paged files over one pool, as values: what a call of pf.c keeps of every file. */
module PfFs {
  import opened PfPool
  import opened PfStore
  import opened PfChain

  type Chains = map<int, seq<int>>

  /** All files: each page is in exactly one of them, each file is in order, and only open files
      have pages in the pool. */
  ghost predicate FsOk(p: Pool, hdrs: map<int, Hdr>, chains: Chains, open: set<int>) {
    && PoolOk(p, PF_MAX_BUFS) && CleanOk(p)
    && hdrs.Keys == chains.Keys
    && (forall fd | fd in hdrs :: FileOk(p, hdrs[fd], fd, chains[fd]))
    && (forall id | Logical(p, id).Present? :: id.fd in hdrs)
    && open <= hdrs.Keys && (forall id | Resident(p, id) :: id.fd in open)
  }

  /** A page of fd that is not on the chain. */
  ghost predicate NotFree(chains: Chains, id: Pid) {
    id.fd in chains ==> id.page !in chains[id.fd]
  }

  /** No page changes, and no free page gets fixed. */
  lemma FsSame(p: Pool, t: Pool, hdrs: map<int, Hdr>, chains: Chains, open: set<int>)
    requires FsOk(p, hdrs, chains, open) && PoolOk(t, PF_MAX_BUFS) && CleanOk(t) && SameStore(p, t)
    requires forall id | IsFixed(t, id) :: IsFixed(p, id) || NotFree(chains, id)
    requires forall id | Resident(t, id) :: id.fd in open
    ensures FsOk(t, hdrs, chains, open)
  {
    hide Logical, IsFixed, PoolOk, CleanOk, FileOk, Resident;
    forall fd | fd in hdrs ensures FileOk(t, hdrs[fd], fd, chains[fd]) {
      ChainUnfixed(p, t, hdrs, chains, fd);
      FileFrame(p, t, hdrs[fd], fd, chains[fd]);
    }
  }

  lemma ChainUnfixed(p: Pool, t: Pool, hdrs: map<int, Hdr>, chains: Chains, fd: int)
    requires fd in hdrs && fd in chains && FileOk(p, hdrs[fd], fd, chains[fd])
    requires forall id | IsFixed(t, id) :: IsFixed(p, id) || NotFree(chains, id)
    ensures forall i | 0 <= i < |chains[fd]| :: !IsFixed(t, Pid(fd, chains[fd][i]))
  {
    hide Logical, IsFixed, ChainOk;
    var s := chains[fd];
    forall i | 0 <= i < |s| ensures !IsFixed(t, Pid(fd, s[i])) {
      assert !IsFixed(p, Pid(fd, s[i]));
      assert !NotFree(chains, Pid(fd, s[i]));
    }
  }

  /** One file changes, to be in order again; the others are as they were. */
  lemma FsChanged(p: Pool, t: Pool, hdrs: map<int, Hdr>, chains: Chains, open: set<int>, fd: int, hdr: Hdr, s: seq<int>)
    requires FsOk(p, hdrs, chains, open) && PoolOk(t, PF_MAX_BUFS) && CleanOk(t) && fd in hdrs
    requires FileOk(t, hdr, fd, s)
    requires forall id: Pid | id.fd != fd :: Logical(t, id) == Logical(p, id)
    requires forall id: Pid | IsFixed(t, id) && id.fd != fd :: IsFixed(p, id)
    requires forall id | Resident(t, id) :: id.fd in open
    ensures FsOk(t, hdrs[fd := hdr], chains[fd := s], open)
  {
    hide Logical, IsFixed, PoolOk, CleanOk, FileOk, Resident;
    var hs, cs := hdrs[fd := hdr], chains[fd := s];
    forall f | f in hs ensures FileOk(t, hs[f], f, cs[f]) {
      if f != fd {
        OtherUnfixed(p, t, hdrs[f], f, chains[f]);
        FileFrame(p, t, hdrs[f], f, chains[f]);
      }
    }
    forall id | Logical(t, id).Present? ensures id.fd in hs {
      if id.fd != fd { assert Logical(p, id).Present?; }
    }
  }

  lemma OtherUnfixed(p: Pool, t: Pool, hdr: Hdr, f: int, s: seq<int>)
    requires FileOk(p, hdr, f, s) && forall n | IsFixed(t, Pid(f, n)) :: IsFixed(p, Pid(f, n))
    ensures forall i | 0 <= i < |s| :: !IsFixed(t, Pid(f, s[i]))
  {
    hide Logical, IsFixed, ChainOk;
  }

  // ---- one call of pf.c, on values ----

  /** PF_AllocPage found a free page: the pool after it is marked used. */
  lemma AllocFromChain(p: Pool, policy: int, hdrs: map<int, Hdr>, chains: Chains, open: set<int>, fd: int)
    requires FsOk(p, hdrs, chains, open) && fd in hdrs && fd in open && chains[fd] != []
    ensures var hdr, s := hdrs[fd], chains[fd];
            var id := Pid(fd, hdr.firstfree);
            var (error, t) := Get(p, PF_MAX_BUFS, policy, id);
            && s[0] == hdr.firstfree
            && (error == PFE_OK || error == PFE_NOBUF)
            && (error == PFE_NOBUF ==> t == p)
            && (error == PFE_OK ==>
                  && IsFixed(t, id) && Logical(p, id).Present? && Logical(t, id) == Logical(p, id)
                  && var u := Store(t, id, Logical(p, id).fpage.(nextfree := PF_PAGE_USED));
                     var hdr1 := hdr.(firstfree := Logical(p, id).fpage.nextfree);
                     && FsOk(u, hdrs[fd := hdr1], chains[fd := s[1..]], open)
                     && (forall x :: IsFixed(u, x) <==> IsFixed(p, x) || x == id)
                     && (forall x | x != id :: Logical(u, x) == Logical(p, x))
                     && Logical(u, id) == Present(Logical(p, id).fpage.(nextfree := PF_PAGE_USED)))
  {
    hide Logical, IsFixed, FrameTaken, Find, CleanOk, ChainOk;
    var hdr, s := hdrs[fd], chains[fd];
    var id := Pid(fd, hdr.firstfree);
    ChainFirst(p, hdr, fd, s);
    assert !IsFixed(p, Pid(fd, s[0]));
    GetKeeps(p, PF_MAX_BUFS, policy, id);
    GetPresent(p, policy, id);
    var (error, t) := Get(p, PF_MAX_BUFS, policy, id);
    if error == PFE_OK {
      var x := Logical(p, id).fpage.(nextfree := PF_PAGE_USED);
      StoreKeeps(t, PF_MAX_BUFS, id, x);
      var u := Store(t, id, x);
      NextFreeIs(p, fd, s[0]);
      RestUnfixed(p, u, hdr, fd, s);
      ChainTakes(p, u, hdr, fd, s, x);
      FsChanged(p, u, hdrs, chains, open, fd, hdr.(firstfree := Logical(p, id).fpage.nextfree), s[1..]);
    }
  }

  lemma NextFreeIs(p: Pool, fd: int, n: int)
    requires Logical(p, Pid(fd, n)).Present?
    ensures NextFree(p, fd, n) == Logical(p, Pid(fd, n)).fpage.nextfree
  {
  }

  lemma RestUnfixed(p: Pool, u: Pool, hdr: Hdr, fd: int, s: seq<int>)
    requires FileOk(p, hdr, fd, s) && s != []
    requires forall x :: IsFixed(u, x) <==> IsFixed(p, x) || x == Pid(fd, s[0])
    ensures forall i | 1 <= i < |s| :: !IsFixed(u, Pid(fd, s[i]))
  {
    hide Logical, IsFixed, NextFree;
  }

  /** A page that is there, and that nobody has fixed, is got unless all frames are fixed. */
  lemma GetPresent(p: Pool, policy: int, id: Pid)
    requires PoolOk(p, PF_MAX_BUFS) && CleanOk(p) && Logical(p, id).Present?
    ensures var error := Get(p, PF_MAX_BUFS, policy, id).0;
            && error != PFE_INCOMPLETEREAD
            && (error == PFE_NOBUF ==> Get(p, PF_MAX_BUFS, policy, id).1 == p)
            && (error == PFE_OK || error == PFE_NOBUF || error == PFE_PAGEFIXED)
            && (error == PFE_PAGEFIXED <==> IsFixed(p, id))
            && (error == PFE_PAGEFIXED ==> Get(p, PF_MAX_BUFS, policy, id).1 == p)
  {
    GetKeeps(p, PF_MAX_BUFS, policy, id);
  }

  /** PF_AllocPage appended a page: the pool after it is marked dirty and used. */
  lemma AllocAtEnd(p: Pool, policy: int, hdrs: map<int, Hdr>, chains: Chains, open: set<int>, fd: int, left: FPage)
    requires FsOk(p, hdrs, chains, open) && fd in hdrs && fd in open
    ensures var hdr := hdrs[fd];
            var id := Pid(fd, hdr.numpages);
            var (error, t) := Alloc(p, PF_MAX_BUFS, policy, id, left);
            && (error == PFE_OK || error == PFE_NOBUF)
            && (error == PFE_NOBUF ==> t == p)
            && (error == PFE_OK ==>
                  var (error1, u) := Used(t, id);
                  var x := left.(nextfree := PF_PAGE_USED);
                  var v := Store(u, id, x);
                  && error1 == PFE_OK && IsFixed(u, id) && Logical(t, id) == Logical(u, id) == Present(left)
                  && Disciplined(v, id, false)
                  && FsOk(v, hdrs[fd := hdr.(numpages := hdr.numpages + 1)], chains[fd := chains[fd]], open)
                  && (forall y :: IsFixed(v, y) <==> IsFixed(p, y) || y == id)
                  && Logical(v, id) == Present(x) && !Logical(p, id).Present?
                  && forall y | y != id :: Logical(v, y) == Logical(p, y))
  {
    hide Logical, IsFixed, FrameTaken, Find, CleanOk, ChainOk;
    var hdr := hdrs[fd];
    var id := Pid(fd, hdr.numpages);
    AbsentNotResident(p, id);
    AllocKeeps(p, PF_MAX_BUFS, policy, id, left);
    var (error, t) := Alloc(p, PF_MAX_BUFS, policy, id, left);
    if error == PFE_OK {
      FixedIsResident(t, id);
      UsedKeeps(t, PF_MAX_BUFS, id);
      var u := Used(t, id).1;
      var x := left.(nextfree := PF_PAGE_USED);
      StoreKeeps(u, PF_MAX_BUFS, id, x);
      var v := Store(u, id, x);
      BeyondChain(p, hdr, fd, chains[fd]);
      ChainStays(p, v, hdr, fd, chains[fd], hdr.numpages);
      FileGrows(p, v, hdr, fd, chains[fd], x);
      FsChanged(p, v, hdrs, chains, open, fd, hdr.(numpages := hdr.numpages + 1), chains[fd]);
    }
  }

  lemma BeyondChain(p: Pool, hdr: Hdr, fd: int, s: seq<int>)
    requires FileOk(p, hdr, fd, s)
    ensures hdr.numpages !in s
  {
    hide Logical, IsFixed, NextFree;
  }

  lemma AbsentNotResident(p: Pool, id: Pid)
    ensures !Logical(p, id).Present? ==> !Resident(p, id)
  {
  }

  lemma FixedIsResident(p: Pool, id: Pid)
    requires IsFixed(p, id)
    ensures Resident(p, id)
  {
  }

  lemma ChainStays(p: Pool, u: Pool, hdr: Hdr, fd: int, s: seq<int>, n: int)
    requires FileOk(p, hdr, fd, s) && n !in s
    requires forall x: Pid | IsFixed(u, x) && x.fd == fd :: IsFixed(p, x) || x == Pid(fd, n)
    ensures forall i | 0 <= i < |s| :: !IsFixed(u, Pid(fd, s[i]))
  {
    hide Logical, IsFixed, NextFree;
  }

  /** A page just got may be unfixed clean: nobody has changed it. */
  lemma GetDisciplined(p: Pool, policy: int, id: Pid, dirty: bool)
    requires PoolOk(p, PF_MAX_BUFS) && CleanOk(p) && Get(p, PF_MAX_BUFS, policy, id).0 == PFE_OK
    ensures Disciplined(Get(p, PF_MAX_BUFS, policy, id).1, id, dirty)
  {
    var t := Get(p, PF_MAX_BUFS, policy, id).1;
    var i := Find(p.used, id);
    if i < |p.used| {
      assert CleanAt(p, p.used[i]);
      FindSet(p.used, i, p.used[i].(fixed := true), id);
    } else {
      var u := FrameTaken(p, PF_MAX_BUFS, policy).1;
      FindFront(BPage(id, false, true, u.disk[id]), u.used, id);
    }
  }

  /** Getting a page and unfixing it changes no file. */
  lemma GetUnfix(p: Pool, policy: int, hdrs: map<int, Hdr>, chains: Chains, open: set<int>, id: Pid)
    requires FsOk(p, hdrs, chains, open) && Get(p, PF_MAX_BUFS, policy, id).0 == PFE_OK && id.fd in open
    ensures var t := Get(p, PF_MAX_BUFS, policy, id).1;
            var (error, u) := Unfix(t, id, false);
            && IsFixed(t, id) && Logical(t, id) == Logical(p, id)
            && error == PFE_OK && FsOk(u, hdrs, chains, open) && SameStore(p, u) && Resident(u, id)
            && (forall x :: IsFixed(u, x) <==> IsFixed(p, x))
  {
    hide Logical, IsFixed, FrameTaken, CleanOk, ChainOk, FileOk, Disciplined, Find, Unfix, Get;
    GetKeeps(p, PF_MAX_BUFS, policy, id);
    GetDisciplined(p, policy, id, false);
    var t := Get(p, PF_MAX_BUFS, policy, id).1;
    FixedIsResident(t, id);
    UnfixKeeps(t, PF_MAX_BUFS, id, false);
    FsSame(p, Unfix(t, id, false).1, hdrs, chains, open);
  }

  /** Getting a used page keeps every file in order. */
  lemma GetUsed(p: Pool, policy: int, hdrs: map<int, Hdr>, chains: Chains, open: set<int>, id: Pid)
    requires FsOk(p, hdrs, chains, open) && Get(p, PF_MAX_BUFS, policy, id).0 == PFE_OK
    requires id.fd in hdrs && id.fd in open && InUse(p, hdrs[id.fd], id.fd, id.page)
    ensures var t := Get(p, PF_MAX_BUFS, policy, id).1;
            && FsOk(t, hdrs, chains, open) && SameStore(p, t) && Disciplined(t, id, false)
            && (forall x :: IsFixed(t, x) <==> IsFixed(p, x) || x == id)
  {
    hide Logical, IsFixed, FrameTaken, CleanOk, ChainOk, Find, Get, NextFree, Disciplined;
    GetKeeps(p, PF_MAX_BUFS, policy, id);
    GetDisciplined(p, policy, id, false);
    InUseIff(p, hdrs[id.fd], id.fd, chains[id.fd], id.page);
    FsSame(p, Get(p, PF_MAX_BUFS, policy, id).1, hdrs, chains, open);
  }

  /** PF_DisposePage of a used page. */
  lemma DisposeUsed(p: Pool, policy: int, hdrs: map<int, Hdr>, chains: Chains, open: set<int>, id: Pid)
    requires FsOk(p, hdrs, chains, open) && Get(p, PF_MAX_BUFS, policy, id).0 == PFE_OK
    requires id.fd in hdrs && id.fd in open && InUse(p, hdrs[id.fd], id.fd, id.page) && Logical(p, id).Present?
    ensures var hdr := hdrs[id.fd];
            var t := Get(p, PF_MAX_BUFS, policy, id).1;
            var x := Logical(p, id).fpage.(nextfree := hdr.firstfree);
            var u := Store(t, id, x);
            var (error, v) := Unfix(u, id, true);
            && error == PFE_OK && IsFixed(t, id)
            && FsOk(v, hdrs[id.fd := hdr.(firstfree := id.page)], chains[id.fd := [id.page] + chains[id.fd]], open)
            && Logical(v, id) == Present(x) && (forall y | y != id :: Logical(v, y) == Logical(p, y))
            && (forall y :: IsFixed(v, y) <==> IsFixed(p, y))
  {
    hide Logical, IsFixed, FrameTaken, CleanOk, ChainOk, Find, Get, Unfix, Store, NextFree, Disciplined;
    var hdr := hdrs[id.fd];
    GetKeeps(p, PF_MAX_BUFS, policy, id);
    var t := Get(p, PF_MAX_BUFS, policy, id).1;
    var x := Logical(p, id).fpage.(nextfree := hdr.firstfree);
    StoreKeeps(t, PF_MAX_BUFS, id, x);
    var u := Store(t, id, x);
    FixedIsResident(u, id);
    UnfixKeeps(u, PF_MAX_BUFS, id, true);
    DirtyDisciplined(u, id);
    var v := Unfix(u, id, true).1;
    InUseIff(p, hdr, id.fd, chains[id.fd], id.page);
    ChainStays(p, v, hdr, id.fd, chains[id.fd], id.page);
    ChainAdds(p, v, hdr, id.fd, chains[id.fd], id.page, x);
    FsChanged(p, v, hdrs, chains, open, id.fd, hdr.(firstfree := id.page), [id.page] + chains[id.fd]);
  }

  lemma DirtyDisciplined(u: Pool, id: Pid)
    ensures Disciplined(u, id, true)
  {
  }

  /** Unfixing a page under the discipline changes no file. */
  lemma UnfixSame(p: Pool, hdrs: map<int, Hdr>, chains: Chains, open: set<int>, id: Pid, dirty: bool)
    requires FsOk(p, hdrs, chains, open) && Disciplined(p, id, dirty)
    ensures var t := Unfix(p, id, dirty).1; FsOk(t, hdrs, chains, open) && SameStore(p, t)
  {
    hide Logical, IsFixed, CleanOk, FileOk, Find, Unfix, Disciplined;
    UnfixKeeps(p, PF_MAX_BUFS, id, dirty);
    FsSame(p, Unfix(p, id, dirty).1, hdrs, chains, open);
  }

  /** Changing the data of a fixed page, but not its link, keeps every file in order. */
  lemma FillSame(p: Pool, hdrs: map<int, Hdr>, chains: Chains, open: set<int>, id: Pid, x: FPage)
    requires FsOk(p, hdrs, chains, open) && IsFixed(p, id) && Logical(p, id).Present?
    requires x.nextfree == Logical(p, id).fpage.nextfree
    ensures var t := Store(p, id, x);
            && FsOk(t, hdrs, chains, open) && Logical(t, id) == Present(x)
            && (forall y | y != id :: Logical(t, y) == Logical(p, y)) && (forall y :: IsFixed(t, y) <==> IsFixed(p, y))
  {
    hide Logical, IsFixed, CleanOk, ChainOk, Find, Store;
    StoreKeeps(p, PF_MAX_BUFS, id, x);
    var t := Store(p, id, x);
    assert id.fd in hdrs;
    FillFile(p, t, hdrs[id.fd], chains[id.fd], id, x);
    FsChanged(p, t, hdrs, chains, open, id.fd, hdrs[id.fd], chains[id.fd]);
    assert hdrs[id.fd := hdrs[id.fd]] == hdrs && chains[id.fd := chains[id.fd]] == chains;
  }

  lemma FillFile(p: Pool, t: Pool, hdr: Hdr, s: seq<int>, id: Pid, x: FPage)
    requires FileOk(p, hdr, id.fd, s) && Logical(p, id).Present? && x.nextfree == Logical(p, id).fpage.nextfree
    requires Logical(t, id) == Present(x) && forall y | y != id :: Logical(t, y) == Logical(p, y)
    requires forall y :: IsFixed(t, y) <==> IsFixed(p, y)
    ensures FileOk(t, hdr, id.fd, s)
  {
    hide Logical, IsFixed;
    assert id == Pid(id.fd, id.page);
    forall n
      ensures NextFree(t, id.fd, n) == NextFree(p, id.fd, n)
      ensures Logical(t, Pid(id.fd, n)).Present? == Logical(p, Pid(id.fd, n)).Present?
    {
    }
  }

  /** A closed file: none of its pages is in the pool, and all are on disk as they were. */
  lemma ReleasedFile(p: Pool, hdrs: map<int, Hdr>, chains: Chains, open: set<int>, fd: int)
    requires FsOk(p, hdrs, chains, open)
    ensures var (error, t) := ReleaseFile(p, fd);
            && (error == PFE_OK || error == PFE_PAGEFIXED)
            && (error == PFE_PAGEFIXED <==> exists j :: 0 <= j < |p.used| && p.used[j].id.fd == fd && p.used[j].fixed)
            && FsOk(t, hdrs, chains, if error == PFE_OK then open - {fd} else open) && SameStore(p, t)
            && (forall x :: IsFixed(t, x) <==> IsFixed(p, x))
            && (error == PFE_OK ==>
                  forall n: int :: !Resident(t, Pid(fd, n))
                    && (Logical(p, Pid(fd, n)).Present? ==>
                          Pid(fd, n) in t.disk && t.disk[Pid(fd, n)] == Logical(p, Pid(fd, n)).fpage))
  {
    hide IsFixed, CleanOk, FileOk, ReleaseFrom;
    ReleaseFails(p, PF_MAX_BUFS, fd);
    ReleaseKeeps(p, PF_MAX_BUFS, fd, 0);
    var (error, t) := ReleaseFile(p, fd);
    FsSame(p, t, hdrs, chains, open);
    if error == PFE_OK {
      forall id | Resident(t, id) ensures id.fd in open - {fd} {
        assert t.used[Find(t.used, id)].id == id;
      }
    }
  }

  /** A new file, with no pages. */
  lemma FsCreated(p: Pool, hdrs: map<int, Hdr>, chains: Chains, open: set<int>, fd: int)
    requires FsOk(p, hdrs, chains, open) && fd !in hdrs
    ensures FsOk(p, hdrs[fd := Hdr(PF_PAGE_LIST_END, 0)], chains[fd := []], open)
  {
    hide Logical, IsFixed, CleanOk, PoolOk;
    forall n ensures !Logical(p, Pid(fd, n)).Present? {
      var id := Pid(fd, n);
      assert Logical(p, id).Present? ==> id.fd in hdrs;
    }
    var hs, cs := hdrs[fd := Hdr(PF_PAGE_LIST_END, 0)], chains[fd := []];
    forall f | f in hs ensures FileOk(p, hs[f], f, cs[f]) {
    }
  }
}
