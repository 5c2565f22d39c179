/** A paged file over the pool: which of its pages are free, by the chain that starts in its
    header and runs through the pages themselves. */
module PfChain {
  import opened PfPool
  import opened PfStore

  const PF_PAGE_LIST_END := -1
  const PF_PAGE_USED := -2

  datatype Hdr = Hdr(firstfree: int, numpages: int)

  function PageAt(s: seq<int>, i: nat): int {
    if i < |s| then s[i] else PF_PAGE_LIST_END
  }

  /** The link field of page n. */
  ghost function NextFree(p: Pool, fd: int, n: int): int {
    match Logical(p, Pid(fd, n))
    case Present(x) => x.nextfree
    case Absent => PF_PAGE_USED
  }

  /** s is the chain of free pages: from the header through the pages, none twice, and the
      pages not on it are the used ones. */
  ghost predicate ChainOk(p: Pool, hdr: Hdr, fd: int, s: seq<int>) {
    && hdr.firstfree == PageAt(s, 0)
    && (forall i | 0 <= i < |s| :: 0 <= s[i] < hdr.numpages && NextFree(p, fd, s[i]) == PageAt(s, i + 1))
    && (forall i, j | 0 <= i < j < |s| :: s[i] != s[j])
    && (forall n | 0 <= n < hdr.numpages && n !in s :: NextFree(p, fd, n) == PF_PAGE_USED)
  }

  /** The pages of the file are those below numpages, each in the pool or on disk; the free ones
      form the chain s, and nobody has fixed them. */
  ghost predicate FileOk(p: Pool, hdr: Hdr, fd: int, s: seq<int>) {
    && 0 <= hdr.numpages
    && (forall n :: Logical(p, Pid(fd, n)).Present? <==> 0 <= n < hdr.numpages)
    && ChainOk(p, hdr, fd, s)
    && (forall i | 0 <= i < |s| :: !IsFixed(p, Pid(fd, s[i])))
  }

  /** The pages in use. */
  ghost predicate InUse(p: Pool, hdr: Hdr, fd: int, n: int) {
    0 <= n < hdr.numpages && NextFree(p, fd, n) == PF_PAGE_USED
  }

  /** A page is in use exactly when it is not on the chain. */
  lemma InUseIff(p: Pool, hdr: Hdr, fd: int, s: seq<int>, n: int)
    requires FileOk(p, hdr, fd, s)
    ensures InUse(p, hdr, fd, n) <==> 0 <= n < hdr.numpages && n !in s
  {
    if 0 <= n < hdr.numpages && n in s {
      var i :| 0 <= i < |s| && s[i] == n;
      assert PageAt(s, i + 1) >= -1;
    }
  }

  lemma FileFrame(p: Pool, t: Pool, hdr: Hdr, fd: int, s: seq<int>)
    requires FileOk(p, hdr, fd, s)
    requires forall n :: Logical(t, Pid(fd, n)) == Logical(p, Pid(fd, n))
    requires forall i | 0 <= i < |s| :: !IsFixed(t, Pid(fd, s[i]))
    ensures FileOk(t, hdr, fd, s)
  {
    assert ChainOk(t, hdr, fd, s) by {
      forall n ensures NextFree(t, fd, n) == NextFree(p, fd, n) {
      }
    }
  }

  /** One page of the file changed: its link, and no other. */
  lemma LinkChanged(p: Pool, t: Pool, fd: int, n0: int, x: FPage)
    requires Logical(t, Pid(fd, n0)) == Present(x)
    requires forall n | n != n0 :: Logical(t, Pid(fd, n)) == Logical(p, Pid(fd, n))
    ensures NextFree(t, fd, n0) == x.nextfree && Logical(t, Pid(fd, n0)).Present?
    ensures forall n | n != n0 :: NextFree(t, fd, n) == NextFree(p, fd, n)
    ensures forall n | n != n0 :: Logical(t, Pid(fd, n)).Present? == Logical(p, Pid(fd, n)).Present?
  {
  }

  /** s is n0 and then u. */
  ghost predicate Headed(s: seq<int>, n0: int, u: seq<int>) {
    && |s| == |u| + 1 && s[0] == n0
    && (forall i | 0 <= i < |u| :: s[i + 1] == u[i])
    && (forall i | 1 <= i < |s| :: u[i - 1] == s[i])
    && (forall n :: n in s <==> n == n0 || n in u)
  }

  lemma HeadedFacts(n0: int, u: seq<int>)
    ensures Headed([n0] + u, n0, u)
  {
  }

  lemma TailFacts(s: seq<int>)
    requires s != []
    ensures Headed(s, s[0], s[1..])
  {
    assert s == [s[0]] + s[1..];
  }

  lemma ChainSkips(p: Pool, t: Pool, hdr: Hdr, fd: int, s: seq<int>, u: seq<int>)
    requires s != [] && Headed(s, s[0], u)
    requires ChainOk(p, hdr, fd, s) && NextFree(t, fd, s[0]) == PF_PAGE_USED
    requires forall n | n != s[0] :: NextFree(t, fd, n) == NextFree(p, fd, n)
    ensures ChainOk(t, hdr.(firstfree := NextFree(p, fd, s[0])), fd, u)
  {
    hide NextFree;
    forall i | 0 <= i < |u| ensures 0 <= u[i] < hdr.numpages && NextFree(t, fd, u[i]) == PageAt(u, i + 1) {
      assert u[i] == s[i + 1];
    }
    forall i, j | 0 <= i < j < |u| ensures u[i] != u[j] {
      assert u[i] == s[i + 1] && u[j] == s[j + 1];
    }
  }

  lemma ChainGrows(p: Pool, t: Pool, hdr: Hdr, fd: int, s: seq<int>, n0: int, u: seq<int>)
    requires Headed(u, n0, s) && n0 !in s && 0 <= n0 < hdr.numpages
    requires ChainOk(p, hdr, fd, s) && NextFree(t, fd, n0) == hdr.firstfree
    requires forall n | n != n0 :: NextFree(t, fd, n) == NextFree(p, fd, n)
    ensures ChainOk(t, hdr.(firstfree := n0), fd, u)
  {
    hide NextFree;
    forall i | 0 <= i <= |s| ensures PageAt(u, i + 1) == PageAt(s, i) {
      if i < |s| { assert u[i + 1] == s[i]; }
    }
    forall i | 0 <= i < |s| ensures s[i] != n0 {
    }
    forall i | 0 <= i < |u| ensures 0 <= u[i] < hdr.numpages && NextFree(t, fd, u[i]) == PageAt(u, i + 1) {
      if i > 0 { assert u[i] == s[i - 1] && NextFree(p, fd, s[i - 1]) == PageAt(s, i); }
    }
    forall i, j | 0 <= i < j < |u| ensures u[i] != u[j] {
      assert u[j] == s[j - 1];
      if i > 0 { assert u[i] == s[i - 1]; }
    }
  }

  /** The first free page is taken: it is marked used, and the header goes on to the next. */
  lemma ChainTakes(p: Pool, t: Pool, hdr: Hdr, fd: int, s: seq<int>, x: FPage)
    requires FileOk(p, hdr, fd, s) && s != []
    requires x.nextfree == PF_PAGE_USED && Logical(t, Pid(fd, s[0])) == Present(x)
    requires forall n | n != s[0] :: Logical(t, Pid(fd, n)) == Logical(p, Pid(fd, n))
    requires forall i | 1 <= i < |s| :: !IsFixed(t, Pid(fd, s[i]))
    ensures var hdr1 := hdr.(firstfree := NextFree(p, fd, s[0]));
            FileOk(t, hdr1, fd, s[1..])
  {
    hide Logical, NextFree, ChainOk, IsFixed;
    LinkChanged(p, t, fd, s[0], x);
    ChainFirst(p, hdr, fd, s);
    var u := s[1..];
    TailFacts(s);
    ChainSkips(p, t, hdr, fd, s, u);
    forall i | 0 <= i < |u| ensures !IsFixed(t, Pid(fd, u[i])) {
      assert u[i] == s[i + 1];
    }
  }

  lemma ChainFirst(p: Pool, hdr: Hdr, fd: int, s: seq<int>)
    requires ChainOk(p, hdr, fd, s) && s != []
    ensures 0 <= s[0] == hdr.firstfree < hdr.numpages && NextFree(p, fd, s[0]) == PageAt(s, 1)
  {
    hide NextFree;
  }

  /** The file grows by a used page. */
  lemma FileGrows(p: Pool, t: Pool, hdr: Hdr, fd: int, s: seq<int>, x: FPage)
    requires FileOk(p, hdr, fd, s)
    requires x.nextfree == PF_PAGE_USED && Logical(t, Pid(fd, hdr.numpages)) == Present(x)
    requires forall n | n != hdr.numpages :: Logical(t, Pid(fd, n)) == Logical(p, Pid(fd, n))
    requires forall i | 0 <= i < |s| :: !IsFixed(t, Pid(fd, s[i]))
    ensures var hdr1 := hdr.(numpages := hdr.numpages + 1);
            FileOk(t, hdr1, fd, s)
  {
    var hdr1 := hdr.(numpages := hdr.numpages + 1);
    forall n | n != hdr.numpages ensures NextFree(t, fd, n) == NextFree(p, fd, n) {
    }
    assert ChainOk(t, hdr1, fd, s);
  }

  /** A used page is put in front of the chain. */
  lemma ChainAdds(p: Pool, t: Pool, hdr: Hdr, fd: int, s: seq<int>, n0: int, x: FPage)
    requires FileOk(p, hdr, fd, s) && InUse(p, hdr, fd, n0)
    requires x.nextfree == hdr.firstfree && Logical(t, Pid(fd, n0)) == Present(x)
    requires forall n | n != n0 :: Logical(t, Pid(fd, n)) == Logical(p, Pid(fd, n))
    requires !IsFixed(t, Pid(fd, n0)) && forall i | 0 <= i < |s| :: !IsFixed(t, Pid(fd, s[i]))
    ensures var hdr1 := hdr.(firstfree := n0);
            FileOk(t, hdr1, fd, [n0] + s)
  {
    hide Logical, NextFree, ChainOk, IsFixed;
    var u := [n0] + s;
    InUseIff(p, hdr, fd, s, n0);
    LinkChanged(p, t, fd, n0, x);
    HeadedFacts(n0, s);
    ChainGrows(p, t, hdr, fd, s, n0, u);
    forall i | 0 <= i < |u| ensures !IsFixed(t, Pid(fd, u[i])) {
      if i > 0 { assert u[i] == s[i - 1]; }
    }
  }
}
