/** The paged files of pf.c over the buffer manager: page allocation and disposal through the
    chain of free pages, access to pages in use, opening and closing.  A file is identified with
    the descriptor it is opened under, and its header on disk is diskHdrs. */
module PfFile {
  import opened PfPool
  import opened PfStore
  import opened PfHash
  import opened PfFrames
  import opened PfBuffer
  import opened PfChain
  import opened PfFs

  const PF_FTAB_SIZE := 20
  const PFE_UNIX := -5
  const PFE_INVALIDPAGE := -10
  const PFE_FD := -13
  const PFE_EOF := -14
  const PFE_PAGEFREE := -15

  datatype FtabEle = FtabEle(open: bool, hdr: Hdr, hdrchanged: bool)

  /** Every frame is taken by a page that somebody has fixed. */
  ghost predicate Full(p: Pool) {
    |p.used| == PF_MAX_BUFS && forall i | 0 <= i < |p.used| :: p.used[i].fixed
  }

  /** A page of the file is fixed. */
  ghost predicate HasFixed(p: Pool, fd: int) {
    exists j :: 0 <= j < |p.used| && p.used[j].id.fd == fd && p.used[j].fixed
  }

  /** Only page id becomes fixed, if ok; and every page stays what it was. */
  ghost predicate OnlyFixes(p: Pool, t: Pool, id: Pid, ok: bool) {
    SameStore(p, t) && forall x :: IsFixed(t, x) <==> IsFixed(p, x) || (ok && x == id)
  }

  /** The page was not in use and is now, and fixed; nothing else changes. */
  ghost predicate Allocated(p: Pool, hdr: Hdr, t: Pool, hdr1: Hdr, id: Pid) {
    && !InUse(p, hdr, id.fd, id.page) && InUse(t, hdr1, id.fd, id.page)
    && (forall y :: IsFixed(t, y) <==> IsFixed(p, y) || y == id)
    && (forall y | y != id :: Logical(t, y) == Logical(p, y))
  }

  /** Between a and b no page is in use and none is fixed. */
  ghost predicate Skips(p: Pool, hdr: Hdr, fd: int, a: int, b: int) {
    forall n | a < n < b :: !InUse(p, hdr, fd, n) && !IsFixed(p, Pid(fd, n))
  }

  /** The loop of PF_GetNextPage from a on ends at page n with this error. */
  ghost predicate Stops(p: Pool, hdr: Hdr, fd: int, a: int, error: int, n: int) {
    && Skips(p, hdr, fd, a, n)
    && a < n <= hdr.numpages && (n == hdr.numpages <==> error == PFE_EOF)
    && (Full(p) ==> n == a + 1)
    && (n < hdr.numpages ==>
          error == if IsFixed(p, Pid(fd, n)) then PFE_PAGEFIXED else if Full(p) then PFE_NOBUF else PFE_OK)
    && (error == PFE_OK ==> InUse(p, hdr, fd, n))
  }

  /** When PF_GetNextPage gives which page or error: a full pool stops it at the first page it tries. */
  ghost predicate NextAnswer(p: Pool, hdr: Hdr, fd: int, a: int, error: int, next: int) {
    && (error == PFE_OK || error == PFE_EOF || error == PFE_PAGEFIXED || error == PFE_NOBUF)
    && (error == PFE_OK ==>
          && a < next < hdr.numpages && InUse(p, hdr, fd, next) && !IsFixed(p, Pid(fd, next))
          && Skips(p, hdr, fd, a, next))
    && (error == PFE_EOF <==> Skips(p, hdr, fd, a, hdr.numpages) && (Full(p) ==> a + 1 == hdr.numpages))
    && (error == PFE_NOBUF <==> Full(p) && a + 1 < hdr.numpages && !IsFixed(p, Pid(fd, a + 1)))
    && (error == PFE_PAGEFIXED <==>
          exists n :: a < n < hdr.numpages && IsFixed(p, Pid(fd, n)) && Skips(p, hdr, fd, a, n)
                      && (Full(p) ==> n == a + 1))
  }

  class Files {
    const buf: BufMgr
    const ftab: array<FtabEle>
    var diskHdrs: map<int, Hdr>
    /** The header of each file: in the table while it is open, else on disk. */
    ghost var hdrs: map<int, Hdr>
    /** The chain of free pages of each file. */
    ghost var chains: Chains

    ghost function Open(): set<int>
      reads ftab
    {
      set fd | 0 <= fd < ftab.Length && ftab[fd].open
    }

    ghost predicate Headers()
      reads this, ftab
    {
      && ftab.Length == PF_FTAB_SIZE
      && hdrs.Keys == diskHdrs.Keys
      && (forall fd | 0 <= fd < PF_FTAB_SIZE && ftab[fd].open ::
            fd in hdrs && ftab[fd].hdr == hdrs[fd] && (!ftab[fd].hdrchanged ==> diskHdrs[fd] == hdrs[fd]))
      && (forall fd | fd in hdrs :: 0 <= fd < PF_FTAB_SIZE && (!ftab[fd].open ==> diskHdrs[fd] == hdrs[fd]))
    }

    ghost predicate Valid()
      reads this, ftab, buf, buf.lists, buf.hash, buf.hash.tbl, buf.hash.entries, buf.frames, buf.lists.used
    {
      Headers() && buf.Valid() && FsOk(buf.Value(), hdrs, chains, Open())
    }

    /** The pointer bpage is to page id. */
    ghost predicate Points(bpage: BufPage?, id: Pid)
      reads buf.hash
    {
      id in buf.hash.pages && buf.hash.pages[id] == bpage
    }

    predicate InvalidFd(fd: int)
      requires ftab.Length == PF_FTAB_SIZE
      reads ftab
    {
      fd < 0 || fd >= PF_FTAB_SIZE || !ftab[fd].open
    }

    /** PF_Init, with no files yet. */
    constructor Init(policy: int)
      ensures Valid() && hdrs == map[] && fresh(ftab) && fresh(buf) && buf.Value() == Pool([], 0, 0, map[])
    {
      buf := new BufMgr.Init(policy, map[]);
      ftab := new FtabEle[PF_FTAB_SIZE](_ => FtabEle(false, Hdr(PF_PAGE_LIST_END, 0), false));
      diskHdrs, hdrs, chains := map[], map[], map[];
    }

    /** PFbufGet for a page below numpages. */
    method Fetch(fd: int, pagenum: int) returns (error: int, bpage: BufPage?)
      requires Valid() && !InvalidFd(fd) && 0 <= pagenum < hdrs[fd].numpages
      modifies buf, buf.lists, buf.hash, buf.hash.tbl, buf.hash.entries, buf.frames
      ensures fresh(buf.frames - old(buf.frames)) && fresh(buf.hash.entries - old(buf.hash.entries))
      ensures buf.Valid() && buf.bufferPolicy == old(buf.bufferPolicy)
      ensures (error, buf.Value()) == PfPool.Get(old(buf.Value()), PF_MAX_BUFS, buf.bufferPolicy, Pid(fd, pagenum))
      ensures error == if old(IsFixed(buf.Value(), Pid(fd, pagenum))) then PFE_PAGEFIXED
                       else if old(Full(buf.Value())) then PFE_NOBUF
                       else PFE_OK
      ensures error != PFE_OK ==> Valid() && buf.Value() == old(buf.Value())
      ensures error == PFE_OK || error == PFE_PAGEFIXED ==> Points(bpage, Pid(fd, pagenum))
      ensures error == PFE_OK ==>
                bpage != null && Pid(fd, pagenum) in buf.hash.pages && buf.hash.pages[Pid(fd, pagenum)] == bpage
                && old(Logical(buf.Value(), Pid(fd, pagenum))) == Present(bpage.fpage)
                && bpage.fpage.nextfree == NextFree(old(buf.Value()), fd, pagenum)
    {
      hide BufMgr.Valid, BufMgr.Value, FsOk, Logical, IsFixed, PfPool.Get, Find, Full, NextFree;
      var id := Pid(fd, pagenum);
      GetCases(buf.Value(), buf.bufferPolicy, hdrs, chains, Open(), id);
      error, bpage := buf.Get(id);
      if error == PFE_OK {
        FrameHolds(buf, id);
      }
    }

    /** PF_GetThisPage */
    method GetThisPage(fd: int, pagenum: int) returns (error: int, bpage: BufPage?)
      requires Valid()
      modifies buf, buf.lists, buf.hash, buf.hash.tbl, buf.hash.entries, buf.frames
      ensures Valid() && fresh(buf.frames - old(buf.frames)) && fresh(buf.hash.entries - old(buf.hash.entries))
      ensures error == if InvalidFd(fd) then PFE_FD
                       else if !(0 <= pagenum < hdrs[fd].numpages) then PFE_INVALIDPAGE
                       else if old(IsFixed(buf.Value(), Pid(fd, pagenum))) then PFE_PAGEFIXED
                       else if old(Full(buf.Value())) then PFE_NOBUF
                       else if InUse(old(buf.Value()), hdrs[fd], fd, pagenum) then PFE_OK
                       else PFE_INVALIDPAGE
      ensures error == PFE_FD <==> !(0 <= fd < 20 && ftab[fd].open)
      ensures error == PFE_OK || error == PFE_PAGEFIXED ==> Points(bpage, Pid(fd, pagenum))
      ensures error == PFE_OK ==> Disciplined(buf.Value(), Pid(fd, pagenum), false)
      ensures OnlyFixes(old(buf.Value()), buf.Value(), Pid(fd, pagenum), error == PFE_OK)
    {
      hide BufMgr.Valid, BufMgr.Value, FsOk, Logical, IsFixed, PfPool.Get, PfPool.Unfix, Find, Full, NextFree,
           Disciplined;
      bpage := null;
      if InvalidFd(fd) {
        return PFE_FD, null;
      }
      if pagenum < 0 || pagenum >= ftab[fd].hdr.numpages {
        return PFE_INVALIDPAGE, null;
      }
      ghost var p := buf.Value();
      error, bpage := Fetch(fd, pagenum);
      if error != PFE_OK {
        return;
      }
      if bpage.fpage.nextfree == PF_PAGE_USED {
        GetUsed(p, buf.bufferPolicy, hdrs, chains, Open(), Pid(fd, pagenum));
        return;
      }
      GetUnfix(p, buf.bufferPolicy, hdrs, chains, Open(), Pid(fd, pagenum));
      error := buf.Unfix(Pid(fd, pagenum), false);
      error := PFE_INVALIDPAGE;
    }

    /** PF_GetNextPage: the first page after pagenum that is in use or fixed; a fixed one is an error. */
    method GetNextPage(fd: int, pagenum: int) returns (error: int, next: int, bpage: BufPage?)
      requires Valid()
      modifies buf, buf.lists, buf.hash, buf.hash.tbl, buf.hash.entries, buf.frames
      ensures Valid() && fresh(buf.frames - old(buf.frames)) && fresh(buf.hash.entries - old(buf.hash.entries))
      ensures error == PFE_FD <==> InvalidFd(fd)
      ensures error == PFE_INVALIDPAGE <==> !InvalidFd(fd) && !(-1 <= pagenum < hdrs[fd].numpages)
      ensures !InvalidFd(fd) && -1 <= pagenum < hdrs[fd].numpages ==>
                NextAnswer(old(buf.Value()), hdrs[fd], fd, pagenum, error, next)
      ensures error == PFE_OK ==> Points(bpage, Pid(fd, next)) && Disciplined(buf.Value(), Pid(fd, next), false)
      ensures error != PFE_OK ==> next == pagenum
      ensures OnlyFixes(old(buf.Value()), buf.Value(), Pid(fd, next), error == PFE_OK)
    {
      hide BufMgr.Valid, BufMgr.Value, FsOk, Logical, IsFixed, PfPool.Get, PfPool.Unfix, PfPool.Used,
           PfPool.Alloc, Store, Find, Full, NextFree, InUse, OnlyFixes, Stops, Skips, Disciplined;
      next, bpage := pagenum, null;
      OnlyFixesSelf(buf.Value(), Pid(fd, next));
      if InvalidFd(fd) {
        return PFE_FD, next, null;
      }
      if pagenum < -1 || pagenum >= ftab[fd].hdr.numpages {
        return PFE_INVALIDPAGE, next, null;
      }
      ghost var p := buf.Value();
      error, next, bpage := Scan(fd, pagenum, hdrs[fd]);
      StopsOnce(p, hdrs[fd], fd, pagenum, error, next);
      if error != PFE_OK {
        OnlyFixesNone(p, buf.Value(), Pid(fd, next), Pid(fd, pagenum));
        next, bpage := pagenum, null;
      }
    }

    /** The loop of PF_GetNextPage, and the page where it ends. */
    method Scan(fd: int, pagenum: int, ghost hdr: Hdr) returns (error: int, next: int, bpage: BufPage?)
      requires Valid() && !InvalidFd(fd) && hdr == hdrs[fd] && -1 <= pagenum < hdr.numpages
      modifies buf, buf.lists, buf.hash, buf.hash.tbl, buf.hash.entries, buf.frames
      ensures Valid() && fresh(buf.frames - old(buf.frames)) && fresh(buf.hash.entries - old(buf.hash.entries))
      ensures Stops(old(buf.Value()), hdr, fd, pagenum, error, next)
      ensures error == PFE_OK ==> Points(bpage, Pid(fd, next)) && Disciplined(buf.Value(), Pid(fd, next), false)
      ensures OnlyFixes(old(buf.Value()), buf.Value(), Pid(fd, next), error == PFE_OK)
    {
      hide BufMgr.Valid, BufMgr.Value, FsOk, Logical, IsFixed, PfPool.Get, PfPool.Unfix, PfPool.Used,
           PfPool.Alloc, Store, Find, Full, NextFree, InUse, OnlyFixes, Disciplined;
      ghost var p := buf.Value();
      next, bpage := pagenum + 1, null;
      OnlyFixesSelf(p, Pid(fd, next));
      while next < ftab[fd].hdr.numpages
        invariant pagenum < next <= hdr.numpages && Valid() && fresh(buf.frames - old(buf.frames))
        invariant fresh(buf.hash.entries - old(buf.hash.entries))
        invariant Skips(p, hdr, fd, pagenum, next) && OnlyFixes(p, buf.Value(), Pid(fd, next), false)
        invariant if next == pagenum + 1 then buf.Value() == p else !Full(p) && !Full(buf.Value())
      {
        var used;
        ghost var q := buf.Value();
        InUseSame(p, q, hdr, fd, next, Pid(fd, next), false);
        error, used, bpage := Probe(fd, next);
        OnlyFixesThen(p, q, buf.Value(), Pid(fd, next), Pid(fd, next), error == PFE_OK && used);
        if error != PFE_OK || used {
          return;
        }
        OnlyFixesNone(p, buf.Value(), Pid(fd, next), Pid(fd, next + 1));
        next := next + 1;
      }
      return PFE_EOF, next, null;
    }

    /** One turn of the loop of PF_GetNextPage: a page that is free is unfixed again. */
    method Probe(fd: int, pagenum: int) returns (error: int, used: bool, bpage: BufPage?)
      requires Valid() && !InvalidFd(fd) && 0 <= pagenum < hdrs[fd].numpages
      modifies buf, buf.lists, buf.hash, buf.hash.tbl, buf.hash.entries, buf.frames
      ensures Valid() && fresh(buf.frames - old(buf.frames)) && fresh(buf.hash.entries - old(buf.hash.entries))
      ensures error == if old(IsFixed(buf.Value(), Pid(fd, pagenum))) then PFE_PAGEFIXED
                       else if old(Full(buf.Value())) then PFE_NOBUF
                       else PFE_OK
      ensures error != PFE_OK ==> buf.Value() == old(buf.Value())
      ensures error == PFE_OK ==> (used <==> InUse(old(buf.Value()), hdrs[fd], fd, pagenum))
      ensures error == PFE_OK && used ==>
                Points(bpage, Pid(fd, pagenum)) && Disciplined(buf.Value(), Pid(fd, pagenum), false)
      ensures error == PFE_OK && !used ==> !Full(buf.Value())
      ensures OnlyFixes(old(buf.Value()), buf.Value(), Pid(fd, pagenum), error == PFE_OK && used)
    {
      hide BufMgr.Valid, BufMgr.Value, FsOk, Logical, IsFixed, PfPool.Get, PfPool.Unfix, PfPool.Used,
           PfPool.Alloc, Store, Find, Full, NextFree, Resident, Disciplined;
      used := false;
      ghost var q := buf.Value();
      error, bpage := Fetch(fd, pagenum);
      if error != PFE_OK {
        return;
      }
      if bpage.fpage.nextfree == PF_PAGE_USED {
        GetUsed(q, buf.bufferPolicy, hdrs, chains, Open(), Pid(fd, pagenum));
        used := true;
        return;
      }
      GetUnfix(q, buf.bufferPolicy, hdrs, chains, Open(), Pid(fd, pagenum));
      error := buf.Unfix(Pid(fd, pagenum), false);
      FullMeans(buf.Value(), Pid(fd, pagenum));
    }

    /** PF_GetFirstPage */
    method GetFirstPage(fd: int) returns (error: int, next: int, bpage: BufPage?)
      requires Valid()
      modifies buf, buf.lists, buf.hash, buf.hash.tbl, buf.hash.entries, buf.frames
      ensures Valid() && fresh(buf.frames - old(buf.frames)) && fresh(buf.hash.entries - old(buf.hash.entries))
      ensures error == PFE_FD <==> InvalidFd(fd)
      ensures !InvalidFd(fd) ==> fd in hdrs && NextAnswer(old(buf.Value()), hdrs[fd], fd, -1, error, next)
      ensures error == PFE_OK ==> Points(bpage, Pid(fd, next)) && Disciplined(buf.Value(), Pid(fd, next), false)
      ensures error != PFE_OK ==> next == -1
      ensures OnlyFixes(old(buf.Value()), buf.Value(), Pid(fd, next), error == PFE_OK)
    {
      hide BufMgr.Valid, BufMgr.Value, FsOk, Logical, IsFixed, PfPool.Get, PfPool.Unfix, PfPool.Used,
           PfPool.Alloc, Store, Find, Full, NextFree, NextAnswer, Disciplined;
      if !InvalidFd(fd) { SizeOf(fd); }
      error, next, bpage := GetNextPage(fd, -1);
    }

    lemma SizeOf(fd: int)
      requires Valid() && !InvalidFd(fd)
      ensures fd in hdrs && fd in chains && 0 <= hdrs[fd].numpages
    {
      hide BufMgr.Valid, Logical, IsFixed, ChainOk;
      assert FileOk(buf.Value(), hdrs[fd], fd, chains[fd]);
    }

    lemma InUseMeans(fd: int)
      requires Valid() && !InvalidFd(fd)
      ensures fd in hdrs && fd in chains
      ensures forall n :: InUse(buf.Value(), hdrs[fd], fd, n) <==> 0 <= n < hdrs[fd].numpages && n !in chains[fd]
    {
      hide BufMgr.Valid, BufMgr.Value, Logical, IsFixed, NextFree, InUse, ChainOk;
      assert FileOk(buf.Value(), hdrs[fd], fd, chains[fd]);
      forall n ensures InUse(buf.Value(), hdrs[fd], fd, n) <==> 0 <= n < hdrs[fd].numpages && n !in chains[fd] {
        InUseIff(buf.Value(), hdrs[fd], fd, chains[fd], n);
      }
    }

    /** The header of an open file changes. */
    method SetHeader(fd: int, hdr: Hdr, ghost s: seq<int>)
      requires Headers() && !InvalidFd(fd)
      modifies this`hdrs, this`chains, ftab
      ensures Headers() && hdrs == old(hdrs)[fd := hdr] && chains == old(chains)[fd := s] && Open() == old(Open())
      ensures !InvalidFd(fd)
    {
      ftab[fd] := FtabEle(true, hdr, true);
      hdrs, chains := hdrs[fd := hdr], chains[fd := s];
    }

    /** PF_AllocPage: a page that was not in use, the first of the chain if there is one and
        else one past the end, is in use and fixed. */
    method AllocPage(fd: int) returns (error: int, pagenum: int, bpage: BufPage?)
      requires Valid()
      modifies this`hdrs, this`chains, ftab
      modifies buf, buf.lists, buf.hash, buf.hash.tbl, buf.hash.entries, buf.frames
      ensures Valid() && fresh(buf.frames - old(buf.frames)) && fresh(buf.hash.entries - old(buf.hash.entries))
      ensures Open() == old(Open())
      ensures error == if old(InvalidFd(fd)) then PFE_FD else if old(Full(buf.Value())) then PFE_NOBUF else PFE_OK
      ensures error != PFE_OK ==> buf.Value() == old(buf.Value()) && hdrs == old(hdrs) && chains == old(chains)
      ensures error == PFE_OK ==> Points(bpage, Pid(fd, pagenum))
      ensures error == PFE_OK ==> Allocated(old(buf.Value()), old(hdrs[fd]), buf.Value(), hdrs[fd], Pid(fd, pagenum))
      ensures error == PFE_OK ==>
                if old(chains[fd]) == [] then
                  pagenum == old(hdrs[fd]).numpages && chains == old(chains)
                  && Disciplined(buf.Value(), Pid(fd, pagenum), false)
                  && hdrs == old(hdrs)[fd := old(hdrs[fd]).(numpages := pagenum + 1)]
                else
                  pagenum == old(chains[fd])[0] && chains == old(chains)[fd := old(chains[fd])[1..]]
                  && hdrs == old(hdrs)[fd := old(hdrs[fd]).(firstfree := PageAt(old(chains[fd]), 1))]
    {
      hide BufMgr.Valid, BufMgr.Value, FsOk, Logical, IsFixed, PfPool.Get, PfPool.Unfix, PfPool.Used,
           PfPool.Alloc, Store, Find, Full, NextFree, Disciplined, Resident, ChainOk, InUse, PageAt;
      pagenum, bpage := 0, null;
      if InvalidFd(fd) {
        return PFE_FD, pagenum, null;
      }
      FirstFree(fd);
      if ftab[fd].hdr.firstfree != PF_PAGE_LIST_END {
        error, pagenum, bpage := TakeFreePage(fd);
      } else {
        error, pagenum, bpage := AddPage(fd);
      }
    }

    lemma FirstFree(fd: int)
      requires Valid() && !InvalidFd(fd)
      ensures fd in hdrs && fd in chains && (hdrs[fd].firstfree == PF_PAGE_LIST_END <==> chains[fd] == [])
      ensures chains[fd] != [] ==> 0 <= hdrs[fd].firstfree < hdrs[fd].numpages && chains[fd][0] == hdrs[fd].firstfree
    {
      hide BufMgr.Valid, Logical, IsFixed, NextFree;
      assert FileOk(buf.Value(), hdrs[fd], fd, chains[fd]);
    }

    /** PF_AllocPage's branch for a file with free pages. */
    method TakeFreePage(fd: int) returns (error: int, pagenum: int, bpage: BufPage?)
      requires Valid() && !InvalidFd(fd) && fd in chains && chains[fd] != []
      modifies this`hdrs, this`chains, ftab
      modifies buf, buf.lists, buf.hash, buf.hash.tbl, buf.hash.entries, buf.frames
      ensures Valid() && fresh(buf.frames - old(buf.frames)) && fresh(buf.hash.entries - old(buf.hash.entries))
      ensures Open() == old(Open())
      ensures error == if old(Full(buf.Value())) then PFE_NOBUF else PFE_OK
      ensures error != PFE_OK ==> buf.Value() == old(buf.Value()) && hdrs == old(hdrs) && chains == old(chains)
      ensures error == PFE_OK ==> Points(bpage, Pid(fd, pagenum))
      ensures error == PFE_OK ==> Allocated(old(buf.Value()), old(hdrs[fd]), buf.Value(), hdrs[fd], Pid(fd, pagenum))
      ensures error == PFE_OK ==>
                && pagenum == old(chains[fd])[0] && chains == old(chains)[fd := old(chains[fd])[1..]]
                && hdrs == old(hdrs)[fd := old(hdrs[fd]).(firstfree := PageAt(old(chains[fd]), 1))]
    {
      hide BufMgr.Valid, BufMgr.Value, FsOk, Logical, IsFixed, PfPool.Get, PfPool.Unfix, PfPool.Used,
           PfPool.Alloc, Store, Find, Full, NextFree, Disciplined, Resident, ChainOk, InUse, PageAt;
      FirstFree(fd);
      ghost var p, s := buf.Value(), chains[fd];
      pagenum := ftab[fd].hdr.firstfree;
      FreeFacts(p, hdrs, chains, Open(), fd);
      AllocFromChain(p, buf.bufferPolicy, hdrs, chains, Open(), fd);
      error, bpage := Fetch(fd, pagenum);
      if error != PFE_OK {
        return;
      }
      var firstfree := bpage.fpage.nextfree;
      buf.Write(Pid(fd, pagenum), bpage, bpage.fpage.(nextfree := PF_PAGE_USED));
      SetHeader(fd, ftab[fd].hdr.(firstfree := firstfree), s[1..]);
      UsedLink(buf.Value(), fd, pagenum);
      NewInUse(buf.Value(), hdrs[fd], fd, pagenum);
    }

    /** PF_AllocPage's branch for a file without free pages: the file grows. */
    method AddPage(fd: int) returns (error: int, pagenum: int, bpage: BufPage?)
      requires Valid() && !InvalidFd(fd)
      modifies this`hdrs, this`chains, ftab
      modifies buf, buf.lists, buf.hash, buf.hash.tbl, buf.hash.entries, buf.frames
      ensures Valid() && fresh(buf.frames - old(buf.frames)) && fresh(buf.hash.entries - old(buf.hash.entries))
      ensures Open() == old(Open())
      ensures error == if old(Full(buf.Value())) then PFE_NOBUF else PFE_OK
      ensures error != PFE_OK ==> buf.Value() == old(buf.Value()) && hdrs == old(hdrs) && chains == old(chains)
      ensures error == PFE_OK ==> Points(bpage, Pid(fd, pagenum))
      ensures error == PFE_OK ==> Allocated(old(buf.Value()), old(hdrs[fd]), buf.Value(), hdrs[fd], Pid(fd, pagenum))
      ensures error == PFE_OK ==> Disciplined(buf.Value(), Pid(fd, pagenum), false)
      ensures error == PFE_OK ==>
                && pagenum == old(hdrs[fd]).numpages && chains == old(chains)
                && hdrs == old(hdrs)[fd := old(hdrs[fd]).(numpages := pagenum + 1)]
    {
      hide BufMgr.Valid, BufMgr.Value, FsOk, Logical, IsFixed, PfPool.Get, PfPool.Unfix, PfPool.Used,
           PfPool.Alloc, Store, Find, Full, NextFree, InUse;
      SizeOf(fd);
      ghost var p := buf.Value();
      pagenum := ftab[fd].hdr.numpages;
      ghost var left;
      error, bpage, left := buf.Alloc(Pid(fd, pagenum));
      AllocAtEnd(p, buf.bufferPolicy, hdrs, chains, Open(), fd, left);
      AllocCases(p, buf.bufferPolicy, hdrs, chains, Open(), fd, left);
      if error == PFE_OK {
        GrowFile(fd, pagenum, bpage, p, left);
      }
    }

    /** The end of that branch: the header counts the new page, which is marked dirty and used. */
    method GrowFile(fd: int, pagenum: int, bpage: BufPage, ghost p: Pool, ghost left: FPage)
      requires Headers() && !InvalidFd(fd) && fd in hdrs && fd in chains && pagenum == hdrs[fd].numpages >= 0
      requires buf.Valid() && FsOk(p, hdrs, chains, Open()) && Points(bpage, Pid(fd, pagenum))
      requires (PFE_OK, buf.Value()) == PfPool.Alloc(p, PF_MAX_BUFS, buf.bufferPolicy, Pid(fd, pagenum), left)
      modifies this`hdrs, this`chains, ftab, buf.lists, buf.frames
      ensures Valid() && Open() == old(Open()) && Points(bpage, Pid(fd, pagenum))
      ensures Allocated(p, old(hdrs[fd]), buf.Value(), hdrs[fd], Pid(fd, pagenum))
      ensures Disciplined(buf.Value(), Pid(fd, pagenum), false)
      ensures chains == old(chains) && hdrs == old(hdrs)[fd := old(hdrs[fd]).(numpages := pagenum + 1)]
    {
      hide BufMgr.Valid, BufMgr.Value, FsOk, Logical, IsFixed, PfPool.Get, PfPool.Unfix, PfPool.Used,
           PfPool.Alloc, Store, Find, Full, NextFree, InUse;
      AllocCases(p, buf.bufferPolicy, hdrs, chains, Open(), fd, left);
      AllocAtEnd(p, buf.bufferPolicy, hdrs, chains, Open(), fd, left);
      SetHeader(fd, ftab[fd].hdr.(numpages := ftab[fd].hdr.numpages + 1), chains[fd]);
      MarkNew(Pid(fd, pagenum), bpage);
      UsedLink(buf.Value(), fd, pagenum);
      NewInUse(buf.Value(), hdrs[fd], fd, pagenum);
      assert chains == old(chains);
    }

    /** The end of PF_AllocPage for a new page: it is marked dirty, and used. */
    method MarkNew(id: Pid, bpage: BufPage)
      requires buf.Valid() && id in buf.hash.pages && buf.hash.pages[id] == bpage
      requires PfPool.Used(buf.Value(), id).0 == PFE_OK
      requires Logical(PfPool.Used(buf.Value(), id).1, id) == Logical(buf.Value(), id)
      modifies buf.lists, buf.frames
      ensures buf.Valid() && Points(bpage, id)
      ensures Logical(old(buf.Value()), id).Present?
      ensures var x := Logical(old(buf.Value()), id).fpage.(nextfree := PF_PAGE_USED);
              buf.Value() == Store(PfPool.Used(old(buf.Value()), id).1, id, x)
    {
      hide BufMgr.Valid, BufMgr.Value, FsOk, Logical, IsFixed, PfPool.Get, PfPool.Unfix, PfPool.Used,
           PfPool.Alloc, Store, Find, Full, NextFree;
      FrameHolds(buf, id);
      var error := buf.Used(id);
      FrameHolds(buf, id);
      buf.Write(id, bpage, bpage.fpage.(nextfree := PF_PAGE_USED));
    }

    /** PF_DisposePage: a page in use, that nobody has fixed, becomes the first free page. */
    method DisposePage(fd: int, pagenum: int) returns (error: int)
      requires Valid()
      modifies this`hdrs, this`chains, ftab
      modifies buf, buf.lists, buf.hash, buf.hash.tbl, buf.hash.entries, buf.frames
      ensures Valid() && fresh(buf.frames - old(buf.frames)) && fresh(buf.hash.entries - old(buf.hash.entries))
      ensures Open() == old(Open())
      ensures error == if old(InvalidFd(fd)) then PFE_FD
                       else if !(0 <= pagenum < old(hdrs[fd]).numpages) then PFE_INVALIDPAGE
                       else if old(IsFixed(buf.Value(), Pid(fd, pagenum))) then PFE_PAGEFIXED
                       else if old(Full(buf.Value())) then PFE_NOBUF
                       else if InUse(old(buf.Value()), old(hdrs[fd]), fd, pagenum) then PFE_OK
                       else PFE_PAGEFREE
      ensures error != PFE_OK ==> SameStore(old(buf.Value()), buf.Value()) && hdrs == old(hdrs) && chains == old(chains)
      ensures error == PFE_OK ==>
                && chains == old(chains)[fd := [pagenum] + old(chains[fd])]
                && hdrs == old(hdrs)[fd := old(hdrs[fd]).(firstfree := pagenum)]
                && (forall y | y != Pid(fd, pagenum) :: Logical(buf.Value(), y) == Logical(old(buf.Value()), y))
                && !InUse(buf.Value(), hdrs[fd], fd, pagenum)
      ensures forall y :: IsFixed(buf.Value(), y) <==> IsFixed(old(buf.Value()), y)
    {
      hide BufMgr.Valid, BufMgr.Value, FsOk, Logical, IsFixed, PfPool.Get, PfPool.Unfix, PfPool.Used,
           PfPool.Alloc, Store, Find, Full, NextFree;
      if InvalidFd(fd) {
        return PFE_FD;
      }
      if pagenum < 0 || pagenum >= ftab[fd].hdr.numpages {
        return PFE_INVALIDPAGE;
      }
      ghost var p := buf.Value();
      var bpage;
      error, bpage := Fetch(fd, pagenum);
      if error != PFE_OK {
        return;
      }
      if bpage.fpage.nextfree != PF_PAGE_USED {
        GetUnfix(p, buf.bufferPolicy, hdrs, chains, Open(), Pid(fd, pagenum));
        error := buf.Unfix(Pid(fd, pagenum), false);
        error := PFE_PAGEFREE;
        return;
      }
      error := PutOnChain(fd, pagenum, bpage, p);
    }

    /** The end of PF_DisposePage. */
    method PutOnChain(fd: int, pagenum: int, bpage: BufPage, ghost p: Pool) returns (error: int)
      requires Headers() && !InvalidFd(fd) && 0 <= pagenum < hdrs[fd].numpages && buf.Valid()
      requires FsOk(p, hdrs, chains, Open())
      requires (PFE_OK, buf.Value()) == PfPool.Get(p, PF_MAX_BUFS, buf.bufferPolicy, Pid(fd, pagenum))
      requires Pid(fd, pagenum) in buf.hash.pages && buf.hash.pages[Pid(fd, pagenum)] == bpage
      requires Logical(p, Pid(fd, pagenum)) == Present(bpage.fpage) && bpage.fpage.nextfree == PF_PAGE_USED
      modifies this`hdrs, this`chains, ftab, buf.lists, buf.frames
      ensures Valid() && error == PFE_OK && fd in old(chains) && Open() == old(Open())
      ensures chains == old(chains)[fd := [pagenum] + old(chains)[fd]]
      ensures hdrs == old(hdrs)[fd := old(hdrs[fd]).(firstfree := pagenum)]
      ensures forall y | y != Pid(fd, pagenum) :: Logical(buf.Value(), y) == Logical(p, y)
      ensures forall y :: IsFixed(buf.Value(), y) <==> IsFixed(p, y)
      ensures !InUse(buf.Value(), hdrs[fd], fd, pagenum)
    {
      hide BufMgr.Valid, BufMgr.Value, FsOk, Logical, IsFixed, PfPool.Get, PfPool.Unfix, PfPool.Used,
           PfPool.Alloc, Store, Find, Full, NextFree, ChainOk;
      var id := Pid(fd, pagenum);
      UsedLink(p, fd, pagenum);
      DisposeUsed(p, buf.bufferPolicy, hdrs, chains, Open(), id);
      KnownFile(p, hdrs, chains, Open(), fd);
      buf.Write(id, bpage, bpage.fpage.(nextfree := ftab[fd].hdr.firstfree));
      SetHeader(fd, ftab[fd].hdr.(firstfree := pagenum), [pagenum] + chains[fd]);
      error := buf.Unfix(id, true);
      FreeFacts(buf.Value(), hdrs, chains, Open(), fd);
    }

    /** PF_UnfixPage, by a client that keeps to the discipline. */
    method UnfixPage(fd: int, pagenum: int, dirty: bool) returns (error: int)
      requires Valid() && Disciplined(buf.Value(), Pid(fd, pagenum), dirty)
      modifies buf.lists, buf.frames
      ensures Valid() && SameStore(old(buf.Value()), buf.Value())
      ensures error == if InvalidFd(fd) then PFE_FD
                       else if !(0 <= pagenum < hdrs[fd].numpages) then PFE_INVALIDPAGE
                       else PfPool.Unfix(old(buf.Value()), Pid(fd, pagenum), dirty).0
      ensures error == PFE_OK <==>
                && !InvalidFd(fd) && 0 <= pagenum < hdrs[fd].numpages
                && IsFixed(old(buf.Value()), Pid(fd, pagenum))
      ensures forall x :: Resident(buf.Value(), x) <==> Resident(old(buf.Value()), x)
      ensures forall x ::
                IsFixed(buf.Value(), x) <==>
                  IsFixed(old(buf.Value()), x) && !(error == PFE_OK && x == Pid(fd, pagenum))
    {
      hide BufMgr.Valid, BufMgr.Value, Logical, IsFixed, FileOk, PfPool.Unfix, Find, Resident, Disciplined;
      if InvalidFd(fd) {
        return PFE_FD;
      }
      if pagenum < 0 || pagenum >= ftab[fd].hdr.numpages {
        return PFE_INVALIDPAGE;
      }
      ghost var p, id := buf.Value(), Pid(fd, pagenum);
      UnfixSame(p, hdrs, chains, Open(), id, dirty);
      UnfixKeeps(p, PF_MAX_BUFS, id, dirty);
      FixedMeans(p, id);
      error := buf.Unfix(Pid(fd, pagenum), dirty);
    }

    /** What a client does through the pointer to the data of a page it has fixed. */
    method FillPage(fd: int, pagenum: int, bpage: BufPage, data: seq<int>)
      requires Valid() && IsFixed(buf.Value(), Pid(fd, pagenum)) && Points(bpage, Pid(fd, pagenum))
      modifies buf.frames
      ensures Valid()
      ensures Logical(buf.Value(), Pid(fd, pagenum)) == Present(old(bpage.fpage).(pagebuf := data))
      ensures forall y | y != Pid(fd, pagenum) :: Logical(buf.Value(), y) == Logical(old(buf.Value()), y)
      ensures forall y :: IsFixed(buf.Value(), y) <==> IsFixed(old(buf.Value()), y)
    {
      hide BufMgr.Valid, BufMgr.Value, FsOk, Logical, IsFixed, PfPool.Get, PfPool.Unfix, PfPool.Used,
           PfPool.Alloc, Store, Find, Full, NextFree;
      FrameHolds(buf, Pid(fd, pagenum));
      FillSame(buf.Value(), hdrs, chains, Open(), Pid(fd, pagenum), bpage.fpage.(pagebuf := data));
      buf.Write(Pid(fd, pagenum), bpage, bpage.fpage.(pagebuf := data));
    }

    /** PF_CreateFile: an error when the file exists already. */
    method CreateFile(fd: int) returns (error: int)
      requires Valid() && 0 <= fd < PF_FTAB_SIZE
      modifies this`hdrs, this`chains, this`diskHdrs
      ensures Valid() && error == if fd in old(diskHdrs) then PFE_UNIX else PFE_OK
      ensures error == PFE_OK ==> hdrs == old(hdrs)[fd := Hdr(PF_PAGE_LIST_END, 0)] && chains == old(chains)[fd := []]
      ensures error != PFE_OK ==> hdrs == old(hdrs) && chains == old(chains) && diskHdrs == old(diskHdrs)
    {
      hide BufMgr.Valid, BufMgr.Value, FsOk;
      if fd in diskHdrs {
        return PFE_UNIX;
      }
      FsCreated(buf.Value(), hdrs, chains, Open(), fd);
      diskHdrs := diskHdrs[fd := Hdr(PF_PAGE_LIST_END, 0)];
      hdrs, chains := hdrs[fd := Hdr(PF_PAGE_LIST_END, 0)], chains[fd := []];
      error := PFE_OK;
    }

    /** PF_OpenFile for a file that is not open: its header comes from disk; an error when there is
        no such file.  The policy of the whole pool is set in both cases. */
    method OpenFile(fd: int, policy: int) returns (error: int)
      requires Valid() && 0 <= fd < PF_FTAB_SIZE && !ftab[fd].open
      modifies ftab, buf`bufferPolicy
      ensures Valid() && buf.Value() == old(buf.Value()) && buf.bufferPolicy == policy
      ensures error == if fd in diskHdrs then PFE_OK else PFE_UNIX
      ensures error == PFE_OK ==> !InvalidFd(fd) && ftab[fd].hdr == diskHdrs[fd] == hdrs[fd]
      ensures error != PFE_OK ==> ftab[..] == old(ftab[..])
    {
      hide BufMgr.Valid, BufMgr.Value, FsOk;
      ghost var open := Open();
      buf.bufferPolicy := policy;
      if fd !in diskHdrs {
        return PFE_UNIX;
      }
      ftab[fd] := FtabEle(true, diskHdrs[fd], false);
      OpenMore(buf.Value(), hdrs, chains, open, Open());
      error := PFE_OK;
    }

    /** PF_CloseFile: it fails exactly when a page of the file is fixed; else the file has no
        page left in the pool, and its pages and its header are on disk as they were. */
    method CloseFile(fd: int) returns (error: int)
      requires Valid()
      modifies this`diskHdrs, ftab, buf, buf.lists, buf.hash, buf.hash.tbl, buf.hash.entries, buf.frames
      ensures Valid() && buf.hash.entries == old(buf.hash.entries) && buf.frames == old(buf.frames)
      ensures error == if old(InvalidFd(fd)) then PFE_FD
                       else if old(HasFixed(buf.Value(), fd)) then PFE_PAGEFIXED
                       else PFE_OK
      ensures SameStore(old(buf.Value()), buf.Value())
      ensures forall x :: IsFixed(buf.Value(), x) <==> IsFixed(old(buf.Value()), x)
      ensures error == PFE_OK ==> fd in hdrs && !ftab[fd].open && diskHdrs == old(diskHdrs)[fd := hdrs[fd]]
      ensures error == PFE_OK ==>
                forall n: int :: !Resident(buf.Value(), Pid(fd, n))
                  && (Logical(old(buf.Value()), Pid(fd, n)).Present? ==>
                        && Pid(fd, n) in buf.disk
                        && Present(buf.disk[Pid(fd, n)]) == Logical(old(buf.Value()), Pid(fd, n)))
    {
      hide BufMgr.Valid, BufMgr.Value, FsOk, Logical, IsFixed, Find, PfPool.ReleaseFile, Resident;
      if InvalidFd(fd) {
        return PFE_FD;
      }
      ghost var p, open := buf.Value(), Open();
      ReleasedFile(p, hdrs, chains, open, fd);
      error := buf.ReleaseFile(fd);
      DiskOf(buf);
      if error != PFE_OK {
        return;
      }
      if ftab[fd].hdrchanged {
        diskHdrs := diskHdrs[fd := ftab[fd].hdr];
      }
      ftab[fd] := ftab[fd].(open := false, hdrchanged := false);
      assert Open() == open - {fd};
    }

    lemma DiskOf(b: BufMgr)
      ensures b.Value().disk == b.disk
    {
    }
  }

  /** What the pointer to a page points at. */
  lemma FrameHolds(buf: BufMgr, id: Pid)
    requires buf.Valid() && id in buf.hash.pages
    ensures Logical(buf.Value(), id) == Present(buf.hash.pages[id].fpage)
    ensures NextFree(buf.Value(), id.fd, id.page) == buf.hash.pages[id].fpage.nextfree
  {
    hide HashTable.Valid, Lists.Ok, Indexed, Views, Find;
    buf.UsedFacts();
    var vs := Views(buf.lists.used);
    var i := FrameFound(buf.hash.pages, buf.lists.used, vs, id);
    buf.ViewAt(i);
    assert id == Pid(id.fd, id.page);
  }

  /** Which error PFbufGet reports for a page of a file. */
  lemma GetCases(p: Pool, policy: int, hdrs: map<int, Hdr>, chains: Chains, open: set<int>, id: Pid)
    requires FsOk(p, hdrs, chains, open) && id.fd in hdrs && 0 <= id.page < hdrs[id.fd].numpages
    ensures Logical(p, id).Present?
    ensures var (error, t) := Get(p, PF_MAX_BUFS, policy, id);
            && error == (if IsFixed(p, id) then PFE_PAGEFIXED else if Full(p) then PFE_NOBUF else PFE_OK)
            && (error != PFE_OK ==> t == p)
            && Logical(t, id) == Logical(p, id)
            && NextFree(t, id.fd, id.page) == NextFree(p, id.fd, id.page)
  {
    hide FrameTaken, Find;
    assert id == Pid(id.fd, id.page);
    assert FileOk(p, hdrs[id.fd], id.fd, chains[id.fd]);
    GetKeeps(p, PF_MAX_BUFS, policy, id);
    GetPresent(p, policy, id);
    FullMeans(p, id);
  }

  /** In a full pool a page is either fixed or not resident. */
  lemma FullMeans(p: Pool, id: Pid)
    ensures Full(p) && Resident(p, id) ==> IsFixed(p, id)
  {
  }

  lemma FullFixes(q: Pool)
    ensures Full(q) ==> exists x :: IsFixed(q, x)
  {
    if Full(q) {
      var i := Find(q.used, q.used[0].id);
      assert IsFixed(q, q.used[0].id);
    }
  }

  lemma StopsOnce(p: Pool, hdr: Hdr, fd: int, a: int, error: int, n: int)
    requires Stops(p, hdr, fd, a, error, n) && -1 <= a < hdr.numpages
    ensures NextAnswer(p, hdr, fd, a, error, n)
    ensures error != PFE_OK ==> NextAnswer(p, hdr, fd, a, error, a)
  {
    hide InUse, IsFixed, Full;
  }

  lemma InUseSame(p: Pool, q: Pool, hdr: Hdr, fd: int, n: int, id: Pid, ok: bool)
    requires OnlyFixes(p, q, id, ok)
    ensures InUse(q, hdr, fd, n) == InUse(p, hdr, fd, n)
    ensures !ok ==> (IsFixed(q, Pid(fd, n)) <==> IsFixed(p, Pid(fd, n)))
  {
  }

  lemma UsedLink(t: Pool, fd: int, n: int)
    requires Logical(t, Pid(fd, n)).Present? && Logical(t, Pid(fd, n)).fpage.nextfree == PF_PAGE_USED
    ensures NextFree(t, fd, n) == PF_PAGE_USED
  {
  }

  lemma NewInUse(t: Pool, hdr: Hdr, fd: int, n: int)
    requires 0 <= n < hdr.numpages && NextFree(t, fd, n) == PF_PAGE_USED
    ensures InUse(t, hdr, fd, n)
  {
  }

  /** The first page of a chain is free and unfixed. */
  lemma FreeFacts(p: Pool, hdrs: map<int, Hdr>, chains: Chains, open: set<int>, fd: int)
    requires FsOk(p, hdrs, chains, open) && fd in hdrs && chains[fd] != []
    ensures !IsFixed(p, Pid(fd, chains[fd][0])) && !InUse(p, hdrs[fd], fd, chains[fd][0])
    ensures NextFree(p, fd, chains[fd][0]) == PageAt(chains[fd], 1)
  {
    hide Logical, IsFixed, NextFree;
    assert FileOk(p, hdrs[fd], fd, chains[fd]);
    InUseIff(p, hdrs[fd], fd, chains[fd], chains[fd][0]);
  }

  lemma AllocCases(p: Pool, policy: int, hdrs: map<int, Hdr>, chains: Chains, open: set<int>, fd: int, left: FPage)
    requires FsOk(p, hdrs, chains, open) && fd in hdrs
    ensures Alloc(p, PF_MAX_BUFS, policy, Pid(fd, hdrs[fd].numpages), left).0 == if Full(p) then PFE_NOBUF else PFE_OK
    ensures !InUse(p, hdrs[fd], fd, hdrs[fd].numpages)
  {
    hide FrameTaken, Find, IsFixed;
    assert FileOk(p, hdrs[fd], fd, chains[fd]);
    AbsentNotResident(p, Pid(fd, hdrs[fd].numpages));
    AllocKeeps(p, PF_MAX_BUFS, policy, Pid(fd, hdrs[fd].numpages), left);
  }

  lemma OnlyFixesThen(p: Pool, q: Pool, t: Pool, a: Pid, b: Pid, ok: bool)
    requires OnlyFixes(p, q, a, false) && OnlyFixes(q, t, b, ok)
    ensures OnlyFixes(p, t, b, ok)
  {
    hide Logical, IsFixed;
  }

  lemma OnlyFixesNone(p: Pool, q: Pool, a: Pid, b: Pid)
    requires OnlyFixes(p, q, a, false)
    ensures OnlyFixes(p, q, b, false)
  {
    hide Logical, IsFixed;
  }

  lemma OnlyFixesSelf(p: Pool, a: Pid)
    ensures OnlyFixes(p, p, a, false)
  {
  }

  lemma KnownFile(p: Pool, hdrs: map<int, Hdr>, chains: Chains, open: set<int>, fd: int)
    requires FsOk(p, hdrs, chains, open)
    ensures hdrs.Keys == chains.Keys
  {
  }

  lemma FixedMeans(p: Pool, id: Pid)
    ensures IsFixed(p, id) ==> Resident(p, id)
  {
  }

  lemma OpenMore(p: Pool, hdrs: map<int, Hdr>, chains: Chains, open: set<int>, more: set<int>)
    requires FsOk(p, hdrs, chains, open) && open <= more <= hdrs.Keys
    ensures FsOk(p, hdrs, chains, more)
  {
    hide Logical, Resident, FileOk;
  }
}
