/** Clients of the paged-file layer: runs of calls on the pointer structures, requests served under
    least-recently-used replacement, a page taken and given back, and data that outlives the pool. */
module PfClient {
  import opened PfPool
  import opened PfStore
  import opened PfBuffer
  import opened PfRun
  import opened PfLru
  import opened PfChain
  import opened PfFs
  import opened PfFile

  /** A run of requests, each page got and unfixed again, reads as many pages from disk as the
      order of the requests says (PfLru.MissIff): those not requested before, or not among the
      last PF_MAX_BUFS different pages requested. */
  method Serve(buf: BufMgr, reqs: seq<Pid>, dirty: seq<bool>)
    requires buf.Valid() && buf.bufferPolicy == 0 && buf.Value().used == []
    requires buf.Value().nfree == buf.Value().numbpage == 0
    requires |dirty| == |reqs| && forall i | 0 <= i < |reqs| :: reqs[i] in buf.Value().disk
    modifies buf, buf.lists, buf.hash, buf.hash.tbl, buf.hash.entries, buf.frames
    ensures buf.Valid() && buf.Value() == AfterRequests(old(buf.Value()), PF_MAX_BUFS, reqs, dirty)
    ensures buf.physicalReads == old(buf.physicalReads) + |Faults(reqs, PF_MAX_BUFS)|
    ensures buf.logicalReads == old(buf.logicalReads) + |reqs|
  {
    hide BufMgr.Valid, BufMgr.Value, Lru, PfPool.Get, PfPool.Unfix, Find, Reads, AfterRequests, Faults;
    ghost var p := buf.Value();
    ReadsAre(p, PF_MAX_BUFS, reqs, dirty);
    var i := 0;
    ServeStart(p);
    while i < |reqs|
      invariant 0 <= i <= |reqs| && buf.Valid() && buf.bufferPolicy == 0
      invariant fresh(buf.frames - old(buf.frames)) && fresh(buf.hash.entries - old(buf.hash.entries))
      invariant buf.Value() == AfterRequests(p, PF_MAX_BUFS, reqs[..i], dirty[..i])
      invariant buf.physicalReads == old(buf.physicalReads) + Reads(p, PF_MAX_BUFS, reqs[..i], dirty[..i])
      invariant buf.logicalReads == old(buf.logicalReads) + i
    {
      assert reqs[..i + 1][..i] == reqs[..i] && dirty[..i + 1][..i] == dirty[..i];
      LruKept(p, PF_MAX_BUFS, reqs[..i], dirty[..i]);
      RequestWorks(buf.Value(), PF_MAX_BUFS, p.disk, reqs[..i], reqs[i]);
      ServeStep(p, reqs, dirty, i);
      var error, bpage := buf.Get(reqs[i]);
      error := buf.Unfix(reqs[i], dirty[i]);
      i := i + 1;
    }
    assert reqs[..i] == reqs && dirty[..i] == dirty;
  }

  lemma ServeStart(p: Pool)
    ensures AfterRequests(p, PF_MAX_BUFS, [], []) == p && Reads(p, PF_MAX_BUFS, [], []) == 0
  {
  }

  lemma ServeStep(p: Pool, reqs: seq<Pid>, dirty: seq<bool>, i: nat)
    requires i < |reqs| == |dirty|
    ensures var t := AfterRequests(p, PF_MAX_BUFS, reqs[..i], dirty[..i]);
            && AfterRequests(p, PF_MAX_BUFS, reqs[..i + 1], dirty[..i + 1])
               == Unfix(Get(t, PF_MAX_BUFS, 0, reqs[i]).1, reqs[i], dirty[i]).1
            && Reads(p, PF_MAX_BUFS, reqs[..i + 1], dirty[..i + 1])
               == Reads(p, PF_MAX_BUFS, reqs[..i], dirty[..i]) + (if Resident(t, reqs[i]) then 0 else 1)
  {
    hide Get, Unfix, Find;
    assert reqs[..i + 1][..i] == reqs[..i] && dirty[..i + 1][..i] == dirty[..i];
  }

  /** A client gives up a page that it has fixed: it becomes the first of the chain. */
  method UnfixAndDispose(files: Files, fd: int, pagenum: int)
    requires files.Valid() && !files.InvalidFd(fd) && fd in files.chains && fd in files.hdrs
    requires InUse(files.buf.Value(), files.hdrs[fd], fd, pagenum) && IsFixed(files.buf.Value(), Pid(fd, pagenum))
    modifies files, files.ftab, files.buf, files.buf.lists, files.buf.hash, files.buf.hash.tbl, files.buf.hash.entries,
             files.buf.frames
    ensures files.Valid() && files.Open() == old(files.Open())
    ensures files.chains == old(files.chains)[fd := [pagenum] + old(files.chains)[fd]]
    ensures files.hdrs == old(files.hdrs)[fd := old(files.hdrs)[fd].(firstfree := pagenum)]
  {
    hide BufMgr.Valid, BufMgr.Value, FsOk, Logical, IsFixed, Find, NextFree, InUse, PfPool.Unfix, Disciplined,
         Resident, Full;
    ghost var p, id := files.buf.Value(), Pid(fd, pagenum);
    DirtyDisciplined(p, id);
    FixedMeans(p, id);
    InUseBelow(p, files.hdrs[fd], fd, pagenum);
    var error := files.UnfixPage(fd, pagenum, true);
    FullMeans(files.buf.Value(), id);
    StillInUse(p, files.buf.Value(), files.hdrs[fd], fd, pagenum);
    error := files.DisposePage(fd, pagenum);
  }

  /** PF_DisposePage undoes PF_AllocPage: the pages in use are those that were; and if the page
      came from the chain, the chain and the headers are as they were. */
  method AllocAndDispose(files: Files, fd: int)
    requires files.Valid() && !files.InvalidFd(fd) && fd in files.chains && fd in files.hdrs
    requires !Full(files.buf.Value())
    modifies files, files.ftab, files.buf, files.buf.lists, files.buf.hash, files.buf.hash.tbl, files.buf.hash.entries,
             files.buf.frames
    ensures files.Valid() && fd in files.hdrs
    ensures UsesSame(old(files.buf.Value()), old(files.hdrs)[fd], files.buf.Value(), files.hdrs[fd], fd)
    ensures old(files.chains)[fd] != [] ==> files.chains == old(files.chains) && files.hdrs == old(files.hdrs)
  {
    hide BufMgr.Valid, BufMgr.Value, FsOk, Logical, IsFixed, Find, NextFree, InUse, PfPool.Unfix, Disciplined,
         Resident, Full, PageAt, UseIs, UsesSame;
    files.FirstFree(fd);
    UseOf(files, fd);
    assert fd in files.Open();
    ghost var p, s, chains, hdrs := files.buf.Value(), files.chains[fd], files.chains, files.hdrs;
    var error, pagenum, bpage := files.AllocPage(fd);
    assert fd in files.Open();
    UnfixAndDispose(files, fd, pagenum);
    UseOf(files, fd);
    if s != [] {
      ghost var next := PageAt(s, 1);
      assert [s[0]] + s[1..] == s;
      PutBack(chains, fd, s[1..], [s[0]] + s[1..]);
      PutBack(hdrs, fd, hdrs[fd].(firstfree := next), hdrs[fd].(firstfree := next).(firstfree := s[0]));
    }
    SameUse(p, hdrs[fd], s, files.buf.Value(), files.hdrs[fd], files.chains[fd], fd);
  }

  lemma UseOf(files: Files, fd: int)
    requires files.Valid() && !files.InvalidFd(fd)
    ensures fd in files.hdrs && fd in files.chains && UseIs(files.buf.Value(), files.hdrs[fd], files.chains[fd], fd)
  {
    hide BufMgr.Valid, BufMgr.Value, FsOk, InUse;
    files.InUseMeans(fd);
  }

  ghost predicate UseIs(p: Pool, hdr: Hdr, s: seq<int>, fd: int) {
    forall n :: InUse(p, hdr, fd, n) <==> 0 <= n < hdr.numpages && n !in s
  }

  ghost predicate UsesSame(p: Pool, hdr: Hdr, t: Pool, hdr1: Hdr, fd: int) {
    forall n :: InUse(t, hdr1, fd, n) <==> InUse(p, hdr, fd, n)
  }

  lemma SameUse(p: Pool, hdr: Hdr, s: seq<int>, t: Pool, hdr1: Hdr, s1: seq<int>, fd: int)
    requires UseIs(p, hdr, s, fd) && UseIs(t, hdr1, s1, fd)
    requires var (m, m1) := (hdr.numpages, hdr1.numpages);
             (s == [] && s1 == [m] + s && m1 == m + 1) || (s1 == s && m1 == m)
    ensures UsesSame(p, hdr, t, hdr1, fd)
  {
    hide InUse;
  }

  lemma PutBack<V>(m: map<int, V>, k: int, a: V, b: V)
    requires k in m && m[k] == b
    ensures m[k := a][k := b] == m
  {
  }

  lemma StillInUse(p: Pool, t: Pool, hdr: Hdr, fd: int, n: int)
    requires SameStore(p, t) && InUse(p, hdr, fd, n)
    ensures InUse(t, hdr, fd, n)
  {
  }

  lemma InUseBelow(p: Pool, hdr: Hdr, fd: int, n: int)
    requires InUse(p, hdr, fd, n)
    ensures 0 <= n < hdr.numpages
  {
  }

  // ---- all pages of a file ----

  /** The pages of the file below upto that are in use, in ascending order. */
  ghost predicate Listed(p: Pool, hdr: Hdr, fd: int, pages: seq<int>, upto: int) {
    && (forall i, j | 0 <= i < j < |pages| :: pages[i] < pages[j])
    && (forall n :: n in pages <==> n < upto && InUse(p, hdr, fd, n))
  }

  /** A client that steps through a file with PF_GetFirstPage and PF_GetNextPage, unfixing each page before
      the next, meets every page in use once, in ascending order, and then the end of the file. */
  method ListPages(files: Files, fd: int) returns (error: int, pages: seq<int>)
    requires files.Valid() && !files.InvalidFd(fd) && forall x :: !IsFixed(files.buf.Value(), x)
    modifies files.buf, files.buf.lists, files.buf.hash, files.buf.hash.tbl, files.buf.hash.entries, files.buf.frames
    ensures files.Valid() && SameStore(old(files.buf.Value()), files.buf.Value())
    ensures forall x :: !IsFixed(files.buf.Value(), x)
    ensures error == PFE_EOF && fd in files.hdrs && fd in files.chains
    ensures forall i, j | 0 <= i < j < |pages| :: pages[i] < pages[j]
    ensures forall n :: n in pages <==> 0 <= n < files.hdrs[fd].numpages && n !in files.chains[fd]
  {
    hide BufMgr.Valid, BufMgr.Value, FsOk, Logical, IsFixed, Find, NextFree, InUse, Full, NextAnswer, SameStore,
         OnlyFixes, Disciplined, Resident, PfPool.Unfix, Listed;
    ghost var p, hdr := files.buf.Value(), files.hdrs[fd];
    var next, bpage;
    pages := [];
    files.SizeOf(fd);
    OnlyFixesSelf(p, Pid(fd, -1));
    NoneListed(p, hdr, fd);
    error, next, bpage := files.GetFirstPage(fd);
    Answered(p, p, files.buf.Value(), hdr, fd, -1, error, next, pages);
    while error == PFE_OK
      invariant files.Valid() && !files.InvalidFd(fd) && fd in files.hdrs && files.hdrs[fd] == hdr
      invariant fresh(files.buf.frames - old(files.buf.frames))
      invariant fresh(files.buf.hash.entries - old(files.buf.hash.entries))
      invariant OnlyFixes(p, files.buf.Value(), Pid(fd, next), error == PFE_OK)
      invariant if error == PFE_OK then
                  && 0 <= next < hdr.numpages && Listed(p, hdr, fd, pages, next) && InUse(p, hdr, fd, next)
                  && Disciplined(files.buf.Value(), Pid(fd, next), false)
                else error == PFE_EOF && Listed(p, hdr, fd, pages, hdr.numpages)
      decreases error == PFE_OK, hdr.numpages - next
    {
      ListedMore(p, hdr, fd, pages, next);
      pages := pages + [next];
      ghost var t, last := files.buf.Value(), next;
      FixedOnly(p, t, Pid(fd, next));
      error := files.UnfixPage(fd, next, false);
      ghost var q := files.buf.Value();
      NoneFixedNow(p, t, q, Pid(fd, next));
      error, next, bpage := files.GetNextPage(fd, next);
      Answered(p, q, files.buf.Value(), hdr, fd, last, error, next, pages);
    }
    SameAgain(p, files.buf.Value(), Pid(fd, next));
    files.InUseMeans(fd);
    AllListed(p, files.buf.Value(), hdr, fd, pages);
  }

  lemma NoneListed(p: Pool, hdr: Hdr, fd: int)
    ensures Listed(p, hdr, fd, [], 0)
  {
  }

  lemma ListedMore(p: Pool, hdr: Hdr, fd: int, pages: seq<int>, n: int)
    requires Listed(p, hdr, fd, pages, n) && InUse(p, hdr, fd, n)
    ensures Listed(p, hdr, fd, pages + [n], n + 1)
  {
    hide InUse;
    assert forall i | 0 <= i < |pages| :: pages[i] in pages;
  }

  /** The answer of PF_GetNextPage when no page was fixed. */
  lemma Answered(p: Pool, q: Pool, t: Pool, hdr: Hdr, fd: int, a: int, error: int, n: int, pages: seq<int>)
    requires (forall x :: !IsFixed(p, x)) && OnlyFixes(p, q, Pid(fd, a), false)
    requires NextAnswer(q, hdr, fd, a, error, n) && OnlyFixes(q, t, Pid(fd, n), error == PFE_OK)
    requires Listed(p, hdr, fd, pages, a + 1) && a < hdr.numpages
    ensures OnlyFixes(p, t, Pid(fd, n), error == PFE_OK) && (error == PFE_OK || error == PFE_EOF)
    ensures error == PFE_OK ==> a < n < hdr.numpages && InUse(p, hdr, fd, n) && Listed(p, hdr, fd, pages, n)
    ensures error == PFE_EOF ==> Listed(p, hdr, fd, pages, hdr.numpages)
  {
    hide Logical, IsFixed, Full;
    FullFixes(q);
  }

  lemma FixedOnly(p: Pool, t: Pool, id: Pid)
    requires OnlyFixes(p, t, id, true)
    ensures IsFixed(t, id)
  {
  }

  lemma NoneFixedNow(p: Pool, t: Pool, q: Pool, id: Pid)
    requires (forall x :: !IsFixed(p, x)) && OnlyFixes(p, t, id, true)
    requires SameStore(t, q) && forall x :: IsFixed(q, x) <==> IsFixed(t, x) && x != id
    ensures OnlyFixes(p, q, id, false)
  {
    hide Logical, IsFixed;
  }

  lemma SameAgain(p: Pool, t: Pool, id: Pid)
    requires (forall x :: !IsFixed(p, x)) && OnlyFixes(p, t, id, false)
    ensures SameStore(p, t) && forall x :: !IsFixed(t, x)
  {
    hide Logical, IsFixed;
  }

  lemma AllListed(p: Pool, t: Pool, hdr: Hdr, fd: int, pages: seq<int>)
    requires Listed(p, hdr, fd, pages, hdr.numpages) && SameStore(p, t)
    ensures forall i, j | 0 <= i < j < |pages| :: pages[i] < pages[j]
    ensures forall n :: n in pages <==> InUse(t, hdr, fd, n)
  {
    hide Logical;
  }

  // ---- any call ----

  /** Any call by a client that keeps to the discipline, on the pointer structures: they do what the
      function of the call says, and contents are those of a store without buffers.  (done is the
      call; for PFbufAlloc with the content that the frame happened to hold.) */
  method Call(buf: BufMgr, e: Event, ghost s: map<Pid, FPage>) returns (error: int, ghost done: Event)
    requires buf.Valid() && CleanOk(buf.Value()) && Refines(buf.Value(), s)
    requires e.EUnfix? ==> Disciplined(buf.Value(), e.id, e.dirty)
    modifies buf, buf.lists, buf.hash, buf.hash.tbl, buf.hash.entries, buf.frames
    ensures buf.Valid() && fresh(buf.frames - old(buf.frames)) && fresh(buf.hash.entries - old(buf.hash.entries))
    ensures buf.bufferPolicy == old(buf.bufferPolicy)
    ensures if e.EAlloc? then done.EAlloc? && done.id == e.id else done == e
    ensures (error, buf.Value()) == Step(old(buf.Value()), PF_MAX_BUFS, buf.bufferPolicy, done)
    ensures CleanOk(buf.Value()) && Refines(buf.Value(), PlainStep(s, done, error))
    ensures forall id | IsFixed(old(buf.Value()), id) && !(e.EUnfix? && e.id == id) :: IsFixed(buf.Value(), id)
  {
    hide BufMgr.Valid, BufMgr.Value, PfPool.Get, PfPool.Unfix, PfPool.Used, PfPool.Alloc, PfPool.ReleaseFile, Store,
         Find, CleanOk, Refines, IsFixed, PlainStep, PoolOk, Disciplined;
    ghost var p := buf.Value();
    buf.PoolIsOk();
    done := e;
    match e {
      case EGet(id) =>
        var bpage;
        error, bpage := buf.Get(id);
      case EUnfix(id, dirty) =>
        error := buf.Unfix(id, dirty);
      case EAlloc(id, _) =>
        var bpage;
        ghost var left;
        error, bpage, left := buf.Alloc(id);
        done := EAlloc(id, left);
      case EUsed(id) =>
        error := buf.Used(id);
      case ERelease(fd) =>
        error := buf.ReleaseFile(fd);
      case EStore(id, fpage) =>
        error := buf.WriteFixed(id, fpage);
    }
    StepRefines(p, PF_MAX_BUFS, buf.bufferPolicy, done, s);
  }

  // ---- data on disk ----

  /** A new page with the given data, still fixed. */
  method FillNew(files: Files, fd: int, data: seq<int>) returns (pagenum: int)
    requires files.Valid() && !files.InvalidFd(fd) && !Full(files.buf.Value())
    modifies files, files.ftab, files.buf, files.buf.lists, files.buf.hash, files.buf.hash.tbl, files.buf.hash.entries,
             files.buf.frames
    ensures files.Valid() && files.Open() == old(files.Open())
    ensures fresh(files.buf.frames - old(files.buf.frames))
    ensures fresh(files.buf.hash.entries - old(files.buf.hash.entries))
    ensures fd in files.hdrs && InUse(files.buf.Value(), files.hdrs[fd], fd, pagenum)
    ensures HoldsData(files.buf.Value(), Pid(fd, pagenum), data) && IsFixed(files.buf.Value(), Pid(fd, pagenum))
    ensures forall y | y != Pid(fd, pagenum) :: Logical(files.buf.Value(), y) == Logical(old(files.buf.Value()), y)
    ensures forall y | y != Pid(fd, pagenum) :: IsFixed(files.buf.Value(), y) == IsFixed(old(files.buf.Value()), y)
  {
    hide BufMgr.Valid, BufMgr.Value, FsOk, Logical, IsFixed, Find, NextFree, Full, InUse, HoldsData;
    assert fd in files.Open();
    var error, bpage;
    error, pagenum, bpage := files.AllocPage(fd);
    assert fd in files.Open();
    files.SizeOf(fd);
    ghost var p, id := files.buf.Value(), Pid(fd, pagenum);
    FrameHolds(files.buf, id);
    UsedIs(p, files.hdrs[fd], fd, pagenum);
    ghost var x := bpage.fpage;
    files.FillPage(fd, pagenum, bpage, data);
    DataHeld(files.buf.Value(), id, x, data);
    InUseBelow(p, files.hdrs[fd], fd, pagenum);
    HeldInUse(files.buf.Value(), files.hdrs[fd], fd, pagenum, data);
  }

  /** A new page with the given data, unfixed dirty. */
  method WritePage(files: Files, fd: int, data: seq<int>) returns (pagenum: int)
    requires files.Valid() && !files.InvalidFd(fd) && forall x :: !IsFixed(files.buf.Value(), x)
    modifies files, files.ftab, files.buf, files.buf.lists, files.buf.hash, files.buf.hash.tbl, files.buf.hash.entries,
             files.buf.frames
    ensures files.Valid() && !files.InvalidFd(fd) && fd in files.hdrs && forall x :: !IsFixed(files.buf.Value(), x)
    ensures fresh(files.buf.frames - old(files.buf.frames))
    ensures fresh(files.buf.hash.entries - old(files.buf.hash.entries))
    ensures InUse(files.buf.Value(), files.hdrs[fd], fd, pagenum)
    ensures HoldsData(files.buf.Value(), Pid(fd, pagenum), data)
    ensures forall y | y != Pid(fd, pagenum) :: Logical(files.buf.Value(), y) == Logical(old(files.buf.Value()), y)
  {
    hide BufMgr.Valid, BufMgr.Value, FsOk, Logical, IsFixed, Find, NextFree, Disciplined, Full, InUse, HoldsData;
    FullFixes(files.buf.Value());
    assert fd in files.Open();
    pagenum := FillNew(files, fd, data);
    assert fd in files.Open();
    ghost var p, id := files.buf.Value(), Pid(fd, pagenum);
    DirtyDisciplined(p, id);
    InUseBelow(p, files.hdrs[fd], fd, pagenum);
    var error := files.UnfixPage(fd, pagenum, true);
    StillHeld(p, files.buf.Value(), id, data);
    HeldInUse(files.buf.Value(), files.hdrs[fd], fd, pagenum, data);
  }

  /** Data written to a page is read back from it after the file was closed and opened again. */
  method WriteAndReopen(files: Files, fd: int, policy: int, data: seq<int>) returns (pagenum: int, back: seq<int>)
    requires files.Valid() && !files.InvalidFd(fd) && forall x :: !IsFixed(files.buf.Value(), x)
    modifies files, files.ftab, files.buf, files.buf.lists, files.buf.hash, files.buf.hash.tbl, files.buf.hash.entries,
             files.buf.frames
    ensures files.Valid() && back == data && IsFixed(files.buf.Value(), Pid(fd, pagenum))
    ensures forall y | y != Pid(fd, pagenum) :: Logical(files.buf.Value(), y) == Logical(old(files.buf.Value()), y)
  {
    hide BufMgr.Valid, BufMgr.Value, FsOk, Logical, IsFixed, Find, NextFree, Resident, Full, InUse, HoldsData;
    pagenum := WritePage(files, fd, data);
    ghost var p, hdr, id := files.buf.Value(), files.hdrs[fd], Pid(fd, pagenum);
    files.buf.PoolIsOk();
    NoneFixed(p, fd);
    var error := files.CloseFile(fd);
    ghost var t := files.buf.Value();
    StillHeld(p, t, id, data);
    error := files.OpenFile(fd, policy);
    back := [];
    var bpage;
    FullFixes(t);
    assert files.buf.Value() == t;
    files.SizeOf(fd);
    assert files.hdrs[fd] == hdr;
    InUseBelow(p, hdr, fd, pagenum);
    HeldInUse(t, hdr, fd, pagenum, data);
    error, bpage := files.GetThisPage(fd, pagenum);
    StillHeld(t, files.buf.Value(), id, data);
    FrameHolds(files.buf, id);
    HeldIs(files.buf.Value(), id, data, bpage.fpage);
    back := bpage.fpage.pagebuf;
  }

  /** The page is in use and holds the data. */
  ghost predicate HoldsData(p: Pool, id: Pid, data: seq<int>) {
    Logical(p, id) == Present(FPage(PF_PAGE_USED, data))
  }

  lemma UsedIs(p: Pool, hdr: Hdr, fd: int, n: int)
    requires InUse(p, hdr, fd, n)
    ensures NextFree(p, fd, n) == PF_PAGE_USED
  {
  }

  lemma DataHeld(p: Pool, id: Pid, x: FPage, data: seq<int>)
    requires Logical(p, id) == Present(x.(pagebuf := data)) && x.nextfree == PF_PAGE_USED
    ensures HoldsData(p, id, data)
  {
  }

  lemma StillHeld(p: Pool, t: Pool, id: Pid, data: seq<int>)
    requires HoldsData(p, id, data) && SameStore(p, t)
    ensures HoldsData(t, id, data)
  {
  }

  lemma HeldInUse(p: Pool, hdr: Hdr, fd: int, n: int, data: seq<int>)
    requires HoldsData(p, Pid(fd, n), data) && 0 <= n < hdr.numpages
    ensures InUse(p, hdr, fd, n)
  {
  }

  lemma HeldIs(p: Pool, id: Pid, data: seq<int>, x: FPage)
    requires HoldsData(p, id, data) && Logical(p, id) == Present(x)
    ensures x.pagebuf == data
  {
  }

  lemma NoneFixed(p: Pool, fd: int)
    requires PoolOk(p, PF_MAX_BUFS) && forall x :: !IsFixed(p, x)
    ensures !HasFixed(p, fd)
  {
    forall j | 0 <= j < |p.used| ensures !p.used[j].fixed {
      FindAt(p.used, j);
      assert !IsFixed(p, p.used[j].id);
    }
  }
}
