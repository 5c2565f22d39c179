/** The pool and the disk together are a plain store of pages: whatever is cached, evicted,
    written back or released, the content of a page is what was last put into it. */
module PfStore {
  import opened PfPool

  datatype Content = Absent | Present(fpage: FPage)

  /** The content of page id: in the pool if it is there, else on disk. */
  function Logical(p: Pool, id: Pid): Content {
    var i := Find(p.used, id);
    if i < |p.used| then Present(p.used[i].fpage)
    else if id in p.disk then Present(p.disk[id])
    else Absent
  }

  ghost predicate SameStore(p: Pool, t: Pool) {
    forall id :: Logical(t, id) == Logical(p, id)
  }

  ghost predicate CleanAt(p: Pool, b: BPage) {
    !b.dirty && !b.fixed ==> b.id in p.disk && p.disk[b.id] == b.fpage
  }

  /** A clean page that nobody has fixed is the same on disk. */
  ghost predicate CleanOk(p: Pool) {
    forall i | 0 <= i < |p.used| :: CleanAt(p, p.used[i])
  }

  // ---- one page leaves the pool ----

  lemma Evicts(p: Pool, i: nat, n: nat, m: nat)
    requires Distinct(p.used) && CleanOk(p) && i < |p.used| && !p.used[i].fixed
    ensures var t := Pool(Without(p.used, i), n, m, WriteBack(p.disk, p.used[i]));
            && SameStore(p, t) && CleanOk(t) && Distinct(t.used)
            && p.used[i].id in t.disk && t.disk[p.used[i].id] == p.used[i].fpage
            && (forall id :: IsFixed(p, id) <==> IsFixed(t, id))
            && (forall id | Resident(t, id) :: Resident(p, id))
  {
    var b := p.used[i];
    var t := Pool(Without(p.used, i), n, m, WriteBack(p.disk, b));
    WithoutFacts(p.used, i);
    FindAt(p.used, i);
    assert CleanAt(p, b);
    forall id
      ensures Logical(t, id) == Logical(p, id) && (IsFixed(p, id) <==> IsFixed(t, id))
      ensures Resident(t, id) ==> Resident(p, id)
    {
      FindWithout(p.used, i, id);
    }
    forall j | 0 <= j < |t.used| ensures CleanAt(t, t.used[j]) {
      var k := if j < i then j else j + 1;
      assert t.used[j] == p.used[k] && CleanAt(p, p.used[k]);
    }
  }

  /** No page is forgotten when a frame is taken. */
  lemma FrameTakenKeeps(p: Pool, cap: nat, policy: int)
    requires PoolOk(p, cap) && CleanOk(p)
    ensures var (error, t) := FrameTaken(p, cap, policy);
            && SameStore(p, t) && CleanOk(t) && Distinct(t.used)
            && (error == PFE_OK ==> |t.used| + t.nfree + 1 == t.numbpage <= cap)
            && (error != PFE_OK ==> error == PFE_NOBUF && t == p)
            && (error == PFE_NOBUF <==> |p.used| == cap && forall i | 0 <= i < |p.used| :: p.used[i].fixed)
            && (forall id :: IsFixed(p, id) <==> IsFixed(t, id))
            && (forall id | !Resident(p, id) :: !Resident(t, id) && (id in t.disk <==> id in p.disk))
  {
    var v := Victim(p.used, policy);
    if p.nfree == 0 && p.numbpage >= cap && v < |p.used| {
      Evicts(p, v, p.nfree, p.numbpage);
      WithoutFacts(p.used, v);
      forall id | !Resident(p, id)
        ensures var t := FrameTaken(p, cap, policy).1; !Resident(t, id) && (id in t.disk <==> id in p.disk)
      {
        FindWithout(p.used, v, id);
      }
    }
  }

  /** A page comes to the front of the list. */
  lemma Comes(t: Pool, b: BPage)
    requires Distinct(t.used) && CleanOk(t) && !Resident(t, b.id) && b.fixed
    ensures var u := t.(used := [b] + t.used);
            && Distinct(u.used) && CleanOk(u) && IsFixed(u, b.id)
            && Logical(u, b.id) == Present(b.fpage)
            && (forall id | id != b.id :: Logical(u, id) == Logical(t, id))
            && (forall id :: IsFixed(u, id) <==> IsFixed(t, id) || id == b.id)
            && (forall id :: Resident(u, id) <==> Resident(t, id) || id == b.id)
  {
    var u := t.(used := [b] + t.used);
    forall id ensures Find(u.used, id) == if b.id == id then 0 else Find(t.used, id) + 1 {
      FindFront(b, t.used, id);
    }
    forall i, j | 0 <= i < j < |u.used| ensures u.used[i].id != u.used[j].id {
      assert u.used[j] == t.used[j - 1];
      if i > 0 { assert u.used[i] == t.used[i - 1]; }
    }
    forall j | 0 <= j < |u.used| ensures CleanAt(u, u.used[j]) {
      if j > 0 { assert CleanAt(t, t.used[j - 1]); }
    }
  }

  /** A page of the list changes in place. */
  lemma Changes(p: Pool, i: nat, b: BPage)
    requires Distinct(p.used) && i < |p.used| && b.id == p.used[i].id
    requires forall j | 0 <= j < |p.used| && j != i :: CleanAt(p, p.used[j])
    ensures var u := p.(used := p.used[i := b]);
            && Distinct(u.used) && Logical(u, b.id) == Present(b.fpage)
            && (forall id | id != b.id :: Logical(u, id) == Logical(p, id) && IsFixed(u, id) == IsFixed(p, id))
            && IsFixed(u, b.id) == b.fixed && (forall id :: Resident(u, id) <==> Resident(p, id))
            && (CleanOk(u) <==> CleanAt(p, b))
  {
    var u := p.(used := p.used[i := b]);
    FindAt(p.used, i);
    forall id ensures Find(u.used, id) == Find(p.used, id) {
      FindSet(p.used, i, b, id);
    }
    FindSet(p.used, i, b, b.id);
    forall id | id != b.id ensures Logical(u, id) == Logical(p, id) && IsFixed(u, id) == IsFixed(p, id) {
    }
    assert u.used[i] == b && u.disk == p.disk;
    if CleanAt(p, b) {
      forall j | 0 <= j < |u.used| ensures CleanAt(u, u.used[j]) {
        if j != i { assert CleanAt(p, p.used[j]); }
      }
    }
    if CleanOk(u) { assert CleanAt(u, u.used[i]); }
  }

  /** A page of the list changes and goes to the front. */
  lemma Moves(p: Pool, i: nat, b: BPage)
    requires Distinct(p.used) && i < |p.used| && b.id == p.used[i].id
    requires forall j | 0 <= j < |p.used| && j != i :: CleanAt(p, p.used[j])
    ensures var u := p.(used := [b] + Without(p.used, i));
            && Distinct(u.used) && Logical(u, b.id) == Present(b.fpage)
            && (forall id | id != b.id :: Logical(u, id) == Logical(p, id) && IsFixed(u, id) == IsFixed(p, id))
            && IsFixed(u, b.id) == b.fixed && (forall id :: Resident(u, id) <==> Resident(p, id))
            && (CleanOk(u) <==> CleanAt(p, b))
  {
    hide Find;
    var w := Without(p.used, i);
    var u := p.(used := [b] + w);
    WithoutFacts(p.used, i);
    FindFront(b, w, b.id);
    FindAt(p.used, i);
    forall id | id != b.id
      ensures Logical(u, id) == Logical(p, id) && IsFixed(u, id) == IsFixed(p, id) && Resident(u, id) == Resident(p, id)
    {
      FindWithout(p.used, i, id);
      FindFront(b, w, id);
    }
    forall x, y | 0 <= x < y < |u.used| ensures u.used[x].id != u.used[y].id {
      var k := if y - 1 < i then y - 1 else y;
      assert u.used[y] == w[y - 1] == p.used[k];
      if x > 0 { assert u.used[x] == w[x - 1]; }
    }
    assert u.used[0] == b && u.disk == p.disk;
    if CleanAt(p, b) {
      forall j | 0 <= j < |u.used| ensures CleanAt(u, u.used[j]) {
        if j > 0 {
          var k := if j - 1 < i then j - 1 else j;
          assert u.used[j] == w[j - 1] == p.used[k] && CleanAt(p, p.used[k]);
        }
      }
    }
    if CleanOk(u) { assert CleanAt(u, u.used[0]); }
  }

  // ---- the routines ----

  /** Get: which error it reports; without one the page is fixed, with its content; and no page
      changes, not even when it fails. */
  lemma GetKeeps(p: Pool, cap: nat, policy: int, id: Pid)
    requires PoolOk(p, cap) && CleanOk(p)
    ensures var (error, t) := Get(p, cap, policy, id);
            && PoolOk(t, cap) && CleanOk(t) && SameStore(p, t)
            && error == (if IsFixed(p, id) then PFE_PAGEFIXED
                         else if Resident(p, id) then PFE_OK
                         else if |p.used| == cap && forall i | 0 <= i < |p.used| :: p.used[i].fixed then PFE_NOBUF
                         else if id in p.disk then PFE_OK
                         else PFE_INCOMPLETEREAD)
            && (forall x :: IsFixed(t, x) <==> IsFixed(p, x) || (error == PFE_OK && x == id))
            && (forall x | Resident(t, x) :: Resident(p, x) || (error == PFE_OK && x == id))
  {
    var i := Find(p.used, id);
    if i < |p.used| {
      if !p.used[i].fixed {
        assert forall j | 0 <= j < |p.used| :: CleanAt(p, p.used[j]);
        Changes(p, i, p.used[i].(fixed := true));
      }
    } else {
      FrameTakenKeeps(p, cap, policy);
      var (error, t) := FrameTaken(p, cap, policy);
      if error == PFE_OK && id in t.disk {
        Comes(t, BPage(id, false, true, t.disk[id]));
      } else if error == PFE_OK {
        assert SameStore(p, t.(nfree := t.nfree + 1)) && CleanOk(t.(nfree := t.nfree + 1));
      }
    }
  }

  /** The caller's discipline: a page changed while fixed is unfixed dirty. */
  ghost predicate Disciplined(p: Pool, id: Pid, dirty: bool) {
    var i := Find(p.used, id);
    i < |p.used| && p.used[i].fixed ==>
      dirty || p.used[i].dirty || (id in p.disk && p.disk[id] == p.used[i].fpage)
  }

  /** Unfix changes no page; clean pages stay as on disk exactly when the caller kept to the
      discipline. */
  lemma UnfixKeeps(p: Pool, cap: nat, id: Pid, dirty: bool)
    requires PoolOk(p, cap) && CleanOk(p)
    ensures var (error, t) := Unfix(p, id, dirty);
            && PoolOk(t, cap) && SameStore(p, t)
            && (CleanOk(t) <==> Disciplined(p, id, dirty))
            && error == (if !Resident(p, id) then PFE_PAGENOTINBUF
                         else if !IsFixed(p, id) then PFE_PAGEUNFIXED
                         else PFE_OK)
            && (forall x :: IsFixed(t, x) <==> IsFixed(p, x) && !(error == PFE_OK && x == id))
            && (forall x :: Resident(t, x) <==> Resident(p, x))
  {
    var i := Find(p.used, id);
    if i < |p.used| && p.used[i].fixed {
      assert forall j | 0 <= j < |p.used| :: CleanAt(p, p.used[j]);
      Moves(p, i, p.used[i].(fixed := false, dirty := p.used[i].dirty || dirty));
      WithoutFacts(p.used, i);
    }
  }

  /** Alloc gives page id a frame, with whatever content; other pages do not change. */
  lemma AllocKeeps(p: Pool, cap: nat, policy: int, id: Pid, x: FPage)
    requires PoolOk(p, cap) && CleanOk(p)
    ensures var (error, t) := Alloc(p, cap, policy, id, x);
            && PoolOk(t, cap) && CleanOk(t)
            && error == (if Resident(p, id) then PFE_PAGEINBUF
                         else if |p.used| == cap && forall i | 0 <= i < |p.used| :: p.used[i].fixed then PFE_NOBUF
                         else PFE_OK)
            && (error == PFE_OK ==> Logical(t, id) == Present(x))
            && (forall y | y != id || error != PFE_OK :: Logical(t, y) == Logical(p, y))
            && (forall y :: IsFixed(t, y) <==> IsFixed(p, y) || (error == PFE_OK && y == id))
            && (forall y | Resident(t, y) :: Resident(p, y) || (error == PFE_OK && y == id))
  {
    if !Resident(p, id) {
      FrameTakenKeeps(p, cap, policy);
      var (error, t) := FrameTaken(p, cap, policy);
      if error == PFE_OK {
        Comes(t, BPage(id, false, true, x));
      }
    }
  }

  /** Used changes no page, and whatever is then written to the page, it may be unfixed clean. */
  lemma UsedKeeps(p: Pool, cap: nat, id: Pid)
    requires PoolOk(p, cap) && CleanOk(p)
    ensures var (error, t) := Used(p, id);
            && PoolOk(t, cap) && CleanOk(t) && SameStore(p, t)
            && error == (if !Resident(p, id) then PFE_PAGENOTINBUF
                         else if !IsFixed(p, id) then PFE_PAGEUNFIXED
                         else PFE_OK)
            && (forall x :: IsFixed(t, x) <==> IsFixed(p, x)) && (forall x :: Resident(t, x) <==> Resident(p, x))
            && (error == PFE_OK ==> forall x :: Disciplined(Store(t, id, x), id, false))
  {
    var i := Find(p.used, id);
    if i < |p.used| && p.used[i].fixed {
      assert forall j | 0 <= j < |p.used| :: CleanAt(p, p.used[j]);
      Moves(p, i, p.used[i].(dirty := true));
      WithoutFacts(p.used, i);
      var t := Used(p, id).1;
      forall x ensures Disciplined(Store(t, id, x), id, false) {
        FindFront(p.used[i].(dirty := true), Without(p.used, i), id);
        FindFront(p.used[i].(dirty := true, fpage := x), Without(p.used, i), id);
        assert t.used[0 := p.used[i].(dirty := true, fpage := x)]
            == [p.used[i].(dirty := true, fpage := x)] + Without(p.used, i);
      }
    }
  }

  /** Writing through the pointer to a fixed page changes that page and no other. */
  lemma StoreKeeps(p: Pool, cap: nat, id: Pid, x: FPage)
    requires PoolOk(p, cap) && CleanOk(p) && IsFixed(p, id)
    ensures var t := Store(p, id, x);
            && PoolOk(t, cap) && CleanOk(t) && Logical(t, id) == Present(x)
            && (forall y | y != id :: Logical(t, y) == Logical(p, y))
            && (forall y :: IsFixed(t, y) == IsFixed(p, y)) && (forall y :: Resident(t, y) <==> Resident(p, y))
  {
    var i := Find(p.used, id);
    assert forall j | 0 <= j < |p.used| :: CleanAt(p, p.used[j]);
    Changes(p, i, p.used[i].(fpage := x));
  }

  /** Releasing a file changes no page; when it succeeds the file has no page left in the pool,
      and all of them are on disk. */
  lemma {:induction false} ReleaseKeeps(p: Pool, cap: nat, fd: int, i: nat)
    requires PoolOk(p, cap) && CleanOk(p) && i <= |p.used|
    requires forall j | 0 <= j < i :: p.used[j].id.fd != fd
    ensures var (error, t) := ReleaseFrom(p, fd, i);
            && PoolOk(t, cap) && CleanOk(t) && SameStore(p, t)
            && (error == PFE_OK || error == PFE_PAGEFIXED)
            && (error == PFE_OK ==> forall j | 0 <= j < |t.used| :: t.used[j].id.fd != fd)
            && (forall x :: IsFixed(p, x) <==> IsFixed(t, x)) && (forall x | Resident(t, x) :: Resident(p, x))
            && (error == PFE_PAGEFIXED ==> exists j :: 0 <= j < |p.used| && p.used[j].id.fd == fd && p.used[j].fixed)
    decreases |p.used| - i
  {
    hide Logical, CleanOk, IsFixed, Find, Resident;
    if i < |p.used| {
      if p.used[i].id.fd != fd {
        ReleaseKeeps(p, cap, fd, i + 1);
      } else if !p.used[i].fixed {
        Evicts(p, i, p.nfree + 1, p.numbpage);
        WithoutFacts(p.used, i);
        var t := Pool(Without(p.used, i), p.nfree + 1, p.numbpage, WriteBack(p.disk, p.used[i]));
        ReleaseKeeps(t, cap, fd, i);
        if ReleaseFrom(t, fd, i).0 == PFE_PAGEFIXED {
          var j :| 0 <= j < |t.used| && t.used[j].id.fd == fd && t.used[j].fixed;
          var k := if j < i then j else j + 1;
          assert p.used[k] == t.used[j];
        }
      }
    }
  }

  /** Releasing a file fails exactly when one of its pages is fixed. */
  lemma ReleaseFails(p: Pool, cap: nat, fd: int)
    requires PoolOk(p, cap) && CleanOk(p)
    ensures ReleaseFile(p, fd).0 == PFE_PAGEFIXED <==>
              exists j :: 0 <= j < |p.used| && p.used[j].id.fd == fd && p.used[j].fixed
    ensures ReleaseFile(p, fd).0 == PFE_OK || ReleaseFile(p, fd).0 == PFE_PAGEFIXED
  {
    ReleaseKeeps(p, cap, fd, 0);
    var (error, t) := ReleaseFile(p, fd);
    if j :| 0 <= j < |p.used| && p.used[j].id.fd == fd && p.used[j].fixed {
      FindAt(p.used, j);
      assert IsFixed(p, p.used[j].id);
      assert IsFixed(t, p.used[j].id);
    }
  }

  /** Which pages it takes out of the pool: those of the file up to the first fixed one, at place j of
      the list, or all of them when none is fixed. */
  lemma {:induction false} ReleaseTakes(p: Pool, fd: int, i: nat) returns (j: nat)
    requires Distinct(p.used) && i <= |p.used| && forall k | 0 <= k < i :: p.used[k].id.fd != fd
    ensures i <= j <= |p.used| && forall k | 0 <= k < j :: !(p.used[k].id.fd == fd && p.used[k].fixed)
    ensures var (error, t) := ReleaseFrom(p, fd, i);
            && (if j == |p.used| then error == PFE_OK
                else error == PFE_PAGEFIXED && p.used[j].id.fd == fd && p.used[j].fixed)
            && forall x :: Resident(t, x) <==> Resident(p, x) && (x.fd != fd || Find(p.used, x) >= j)
    decreases |p.used| - i
  {
    hide Find, WriteBack, Without;
    if i == |p.used| {
      j := i;
    } else if p.used[i].id.fd != fd {
      j := ReleaseTakes(p, fd, i + 1);
    } else if p.used[i].fixed {
      j := i;
      forall x | Resident(p, x) && x.fd == fd ensures Find(p.used, x) >= j {
        assert p.used[Find(p.used, x)].id == x;
      }
    } else {
      WithoutFacts(p.used, i);
      var t := Pool(Without(p.used, i), p.nfree + 1, p.numbpage, WriteBack(p.disk, p.used[i]));
      j := ReleaseTakes(t, fd, i);
      TakesOneMore(p, t, ReleaseFrom(t, fd, i).1, fd, i, j);
      j := j + 1;
    }
  }

  lemma TakesOneMore(p: Pool, t: Pool, u: Pool, fd: int, i: nat, j: nat)
    requires Distinct(p.used) && i < |p.used| && i <= j < |p.used| && t.used == Without(p.used, i)
    requires p.used[i].id.fd == fd && !p.used[i].fixed
    requires forall k | 0 <= k < j :: !(t.used[k].id.fd == fd && t.used[k].fixed)
    requires forall x :: Resident(u, x) <==> Resident(t, x) && (x.fd != fd || Find(t.used, x) >= j)
    ensures forall k | 0 <= k < j + 1 :: !(p.used[k].id.fd == fd && p.used[k].fixed)
    ensures forall x :: Resident(u, x) <==> Resident(p, x) && (x.fd != fd || Find(p.used, x) >= j + 1)
  {
    hide Find;
    WithoutFacts(p.used, i);
    forall k | 0 <= k < j + 1 ensures !(p.used[k].id.fd == fd && p.used[k].fixed) {
      if k != i { assert p.used[k] == t.used[if k < i then k else k - 1]; }
    }
    FindAt(p.used, i);
    forall x ensures Resident(u, x) <==> Resident(p, x) && (x.fd != fd || Find(p.used, x) >= j + 1) {
      PlaceWithout(p.used, i, x);
    }
  }

  lemma PlaceWithout(used: seq<BPage>, i: nat, x: Pid)
    requires Distinct(used) && i < |used|
    ensures var k, m := Find(used, x), Find(Without(used, i), x);
            if x == used[i].id then m == |used| - 1
            else if k < |used| then m == if k < i then k else k - 1
            else m == |used| - 1
  {
    var t := Without(used, i);
    WithoutFacts(used, i);
    FindWithout(used, i, x);
    var k := Find(used, x);
    if k < |used| && x != used[i].id {
      assert t[if k < i then k else k - 1] == used[k];
      FindAt(t, if k < i then k else k - 1);
    }
  }
}
