/** The buffer pool of the paged-file layer as a value: the used list from most to least
    recently unfixed, the count of free frames, and the disk below.  Each routine of buf.c is a
    function on it; here is what those functions keep and what they hide. */
module PfPool {

  const PFE_OK := 0
  const PFE_NOBUF := -2
  const PFE_PAGEFIXED := -3
  const PFE_PAGENOTINBUF := -4
  const PFE_INCOMPLETEREAD := -6
  const PFE_PAGEUNFIXED := -16
  const PFE_PAGEINBUF := -17

  const PF_MAX_BUFS := 20

  /** A page as it is on disk: its link in the chain of free pages, and its data. */
  datatype FPage = FPage(nextfree: int, pagebuf: seq<int>)

  datatype Pid = Pid(fd: int, page: int)
  datatype BPage = BPage(id: Pid, dirty: bool, fixed: bool, fpage: FPage)

  type Disk = map<Pid, FPage>

  datatype Pool = Pool(used: seq<BPage>, nfree: nat, numbpage: nat, disk: Disk)

  // ---- finding pages ----

  /** The position of page id in the used list, or its length. */
  function Find(used: seq<BPage>, id: Pid): (i: nat)
    ensures i <= |used|
    ensures i < |used| ==> used[i].id == id
    ensures forall j | 0 <= j < i :: used[j].id != id
  {
    if used == [] || used[0].id == id then 0 else Find(used[1..], id) + 1
  }

  predicate Resident(p: Pool, id: Pid) { Find(p.used, id) < |p.used| }

  /** Somebody has fixed the page. */
  predicate IsFixed(p: Pool, id: Pid) {
    Find(p.used, id) < |p.used| && p.used[Find(p.used, id)].fixed
  }

  ghost predicate Distinct(used: seq<BPage>) {
    forall i, j | 0 <= i < j < |used| :: used[i].id != used[j].id
  }

  /** Every page once; used and free frames are all the frames there are, at most cap. */
  ghost predicate PoolOk(p: Pool, cap: nat) {
    Distinct(p.used) && |p.used| + p.nfree == p.numbpage <= cap
  }

  lemma FindAt(used: seq<BPage>, i: nat)
    requires Distinct(used) && i < |used|
    ensures Find(used, used[i].id) == i
  {
    var j := Find(used, used[i].id);
    assert j <= i;
  }

  // ---- list surgery ----

  function Without(used: seq<BPage>, i: nat): seq<BPage>
    requires i < |used|
  {
    used[..i] + used[i + 1..]
  }

  lemma WithoutFacts(used: seq<BPage>, i: nat)
    requires i < |used|
    ensures |Without(used, i)| == |used| - 1
    ensures forall j | 0 <= j < |used| - 1 :: Without(used, i)[j] == used[if j < i then j else j + 1]
    ensures Distinct(used) ==> Distinct(Without(used, i))
  {
    var t := Without(used, i);
    if Distinct(used) {
      forall a, b | 0 <= a < b < |t| ensures t[a].id != t[b].id {
        assert t[a] == used[if a < i then a else a + 1] && t[b] == used[if b < i then b else b + 1];
      }
    }
  }

  lemma WithoutSet(used: seq<BPage>, i: nat, b: BPage)
    requires i < |used|
    ensures Without(used[i := b], i) == Without(used, i)
  {
  }

  lemma FindWithout(used: seq<BPage>, i: nat, id: Pid)
    requires Distinct(used) && i < |used|
    ensures var k, m := Find(used, id), Find(Without(used, i), id);
            if id == used[i].id then m == |used| - 1
            else (k < |used| <==> m < |used| - 1) && (k < |used| ==> Without(used, i)[m] == used[k])
  {
    var t := Without(used, i);
    WithoutFacts(used, i);
    var k, m := Find(used, id), Find(t, id);
    if m < |t| { assert t[m] == used[if m < i then m else m + 1]; }
    if k < |used| && k != i {
      var m' := if k < i then k else k - 1;
      assert t[m'] == used[k];
      FindAt(t, m');
    }
  }

  lemma FindFront(b: BPage, used: seq<BPage>, id: Pid)
    ensures Find([b] + used, id) == if b.id == id then 0 else Find(used, id) + 1
  {
    assert ([b] + used)[1..] == used;
  }

  lemma FindSet(used: seq<BPage>, i: nat, b: BPage, id: Pid)
    requires i < |used| && b.id == used[i].id && Distinct(used)
    ensures Distinct(used[i := b]) && Find(used[i := b], id) == Find(used, id)
  {
    var t := used[i := b];
    forall x, y | 0 <= x < y < |t| ensures t[x].id != t[y].id {
      assert t[x].id == used[x].id && t[y].id == used[y].id;
    }
    var k, m := Find(used, id), Find(t, id);
    if m < |t| {
      assert used[m].id == t[m].id;
      FindAt(used, m);
    }
    if k < |used| {
      assert t[k].id == id;
      FindAt(t, k);
    }
  }

  // ---- choosing a victim ----

  /** The unfixed page nearest the end (policy 0) or the front of the list; |used| if all are
      fixed. */
  function Victim(used: seq<BPage>, policy: int): (v: nat)
    ensures v <= |used|
    ensures v < |used| ==> !used[v].fixed
    ensures v == |used| ==> forall i | 0 <= i < |used| :: used[i].fixed
    ensures policy == 0 ==> forall i | v < i < |used| :: used[i].fixed
    ensures policy != 0 ==> forall i | 0 <= i < v :: used[i].fixed
  {
    if policy == 0 then LastUnfixed(used) else FirstUnfixed(used)
  }

  function FirstUnfixed(used: seq<BPage>): (v: nat)
    ensures v <= |used| && (v < |used| ==> !used[v].fixed) && forall i | 0 <= i < v :: used[i].fixed
  {
    if used == [] || !used[0].fixed then 0 else FirstUnfixed(used[1..]) + 1
  }

  function LastUnfixed(used: seq<BPage>): (v: nat)
    ensures v <= |used| && (v < |used| ==> !used[v].fixed)
    ensures forall i | (if v < |used| then v + 1 else 0) <= i < |used| :: used[i].fixed
  {
    if used == [] then 0
    else
      var n := |used| - 1;
      if !used[n].fixed then n
      else if LastUnfixed(used[..n]) < n then LastUnfixed(used[..n]) else n + 1
  }

  // ---- the routines of buf.c ----

  /** A dirty page is written before its frame is used for another page. */
  function WriteBack(disk: Disk, b: BPage): Disk {
    if b.dirty then disk[b.id := b.fpage] else disk
  }

  /** PFbufInternalAlloc: the pool without the frame that is going to be used, if there is one:
      a free frame, a new one, or a victim's. */
  function FrameTaken(p: Pool, cap: nat, policy: int): (r: (int, Pool)) {
    if p.nfree > 0 then (PFE_OK, p.(nfree := p.nfree - 1))
    else if p.numbpage < cap then (PFE_OK, p.(numbpage := p.numbpage + 1))
    else
      var v := Victim(p.used, policy);
      if v == |p.used| then (PFE_NOBUF, p)
      else (PFE_OK, p.(used := Without(p.used, v), disk := WriteBack(p.disk, p.used[v])))
  }

  /** How many pages that writes to the disk. */
  function Written(p: Pool, cap: nat, policy: int): nat {
    if p.nfree > 0 || p.numbpage < cap then 0
    else
      var v := Victim(p.used, policy);
      if v < |p.used| && p.used[v].dirty then 1 else 0
  }

  /** A page whose frame was dirty has lost it. */
  ghost predicate DirtyGone(p: Pool, t: Pool) {
    exists i | 0 <= i < |p.used| :: p.used[i].dirty && !Resident(t, p.used[i].id)
  }

  lemma WrittenIff(p: Pool, cap: nat, policy: int)
    requires Distinct(p.used)
    ensures Written(p, cap, policy) == if DirtyGone(p, FrameTaken(p, cap, policy).1) then 1 else 0
  {
    var v, t := Victim(p.used, policy), FrameTaken(p, cap, policy).1;
    forall i | 0 <= i < |p.used|
      ensures Resident(p, p.used[i].id)
      ensures v < |p.used| ==>
                (Find(Without(p.used, v), p.used[i].id) < |Without(p.used, v)| <==> i != v)
    {
      FindAt(p.used, i);
      if v < |p.used| {
        WithoutFacts(p.used, v);
        FindWithout(p.used, v, p.used[i].id);
      }
    }
    if v < |p.used| {
      assert p.used[v].dirty ==> p.used[v].dirty && !(Find(Without(p.used, v), p.used[v].id) < |Without(p.used, v)|);
    }
  }

  /** A page that comes to the front, and had no frame, takes none from the others. */
  lemma DirtyGoneFront(p: Pool, t: Pool, u: Pool, b: BPage)
    requires Distinct(p.used) && u.used == [b] + t.used && !Resident(p, b.id)
    ensures DirtyGone(p, u) <==> DirtyGone(p, t)
  {
    forall i | 0 <= i < |p.used| ensures Resident(u, p.used[i].id) <==> Resident(t, p.used[i].id) {
      FindAt(p.used, i);
      FindFront(b, t.used, p.used[i].id);
    }
  }

  lemma NoneGone(p: Pool, t: Pool)
    requires Distinct(p.used) && |t.used| == |p.used| && forall i | 0 <= i < |p.used| :: t.used[i].id == p.used[i].id
    ensures !DirtyGone(p, t)
  {
    forall i | 0 <= i < |p.used| ensures Resident(t, p.used[i].id) {
      FindHere(t.used, i);
    }
  }

  lemma FindHere(used: seq<BPage>, i: nat)
    requires i < |used|
    ensures Find(used, used[i].id) < |used|
  {
  }

  /** PFbufGet */
  function Get(p: Pool, cap: nat, policy: int, id: Pid): (int, Pool) {
    var i := Find(p.used, id);
    if i < |p.used| then
      if p.used[i].fixed then (PFE_PAGEFIXED, p)
      else (PFE_OK, p.(used := p.used[i := p.used[i].(fixed := true)]))
    else
      var (error, t) := FrameTaken(p, cap, policy);
      if error != PFE_OK then (error, p)
      else if id !in t.disk then (PFE_INCOMPLETEREAD, t.(nfree := t.nfree + 1))
      else (PFE_OK, t.(used := [BPage(id, false, true, t.disk[id])] + t.used))
  }

  /** PFbufGet writes a page exactly when it takes a dirty frame from it. */
  lemma GetWrites(p: Pool, cap: nat, policy: int, id: Pid)
    requires Distinct(p.used)
    ensures DirtyGone(p, Get(p, cap, policy, id).1) <==> !Resident(p, id) && Written(p, cap, policy) == 1
  {
    hide FrameTaken, Written, DirtyGone;
    var i, t := Find(p.used, id), FrameTaken(p, cap, policy).1;
    WrittenIff(p, cap, policy);
    if i < |p.used| {
      NoneGone(p, Get(p, cap, policy, id).1);
    } else {
      FrameOnly(p, cap, policy);
      if FrameTaken(p, cap, policy).0 == PFE_OK {
        if id in t.disk {
          DirtyGoneFront(p, t, Get(p, cap, policy, id).1, BPage(id, false, true, t.disk[id]));
        } else {
          SameGone(p, t, Get(p, cap, policy, id).1);
        }
      }
    }
  }

  lemma FrameOnly(p: Pool, cap: nat, policy: int)
    ensures FrameTaken(p, cap, policy).0 != PFE_OK ==> FrameTaken(p, cap, policy).1 == p
  {
  }

  lemma SameGone(p: Pool, t: Pool, u: Pool)
    requires u.used == t.used
    ensures DirtyGone(p, u) <==> DirtyGone(p, t)
  {
  }

  /** PFbufUnfix */
  function Unfix(p: Pool, id: Pid, dirty: bool): (int, Pool) {
    var i := Find(p.used, id);
    if i == |p.used| then (PFE_PAGENOTINBUF, p)
    else if !p.used[i].fixed then (PFE_PAGEUNFIXED, p)
    else (PFE_OK, p.(used := [p.used[i].(fixed := false, dirty := p.used[i].dirty || dirty)] + Without(p.used, i)))
  }

  /** PFbufAlloc; the new page's content is whatever the frame held, here x. */
  function Alloc(p: Pool, cap: nat, policy: int, id: Pid, x: FPage): (int, Pool) {
    if Resident(p, id) then (PFE_PAGEINBUF, p)
    else
      var (error, t) := FrameTaken(p, cap, policy);
      if error != PFE_OK then (error, p)
      else (PFE_OK, t.(used := [BPage(id, false, true, x)] + t.used))
  }

  lemma AllocWrites(p: Pool, cap: nat, policy: int, id: Pid, x: FPage)
    requires Distinct(p.used)
    ensures DirtyGone(p, Alloc(p, cap, policy, id, x).1) <==> !Resident(p, id) && Written(p, cap, policy) == 1
  {
    hide FrameTaken, Written, DirtyGone;
    var t := FrameTaken(p, cap, policy).1;
    WrittenIff(p, cap, policy);
    if Resident(p, id) {
      NoneGone(p, p);
    } else {
      FrameOnly(p, cap, policy);
      if FrameTaken(p, cap, policy).0 == PFE_OK {
        DirtyGoneFront(p, t, Alloc(p, cap, policy, id, x).1, BPage(id, false, true, x));
      }
    }
  }

  /** PFbufUsed */
  function Used(p: Pool, id: Pid): (int, Pool) {
    var i := Find(p.used, id);
    if i == |p.used| then (PFE_PAGENOTINBUF, p)
    else if !p.used[i].fixed then (PFE_PAGEUNFIXED, p)
    else (PFE_OK, p.(used := [p.used[i].(dirty := true)] + Without(p.used, i)))
  }

  /** What the caller does through the pointer that Get or Alloc gave it. */
  function Store(p: Pool, id: Pid, x: FPage): Pool {
    var i := Find(p.used, id);
    if i == |p.used| then p else p.(used := p.used[i := p.used[i].(fpage := x)])
  }

  /** PFbufReleaseFile: the pages of fd leave the pool, up to the first one that is fixed. */
  function ReleaseFrom(p: Pool, fd: int, i: nat): (int, Pool)
    requires i <= |p.used|
    decreases |p.used| - i
  {
    if i == |p.used| then (PFE_OK, p)
    else if p.used[i].id.fd != fd then ReleaseFrom(p, fd, i + 1)
    else if p.used[i].fixed then (PFE_PAGEFIXED, p)
    else ReleaseFrom(Pool(Without(p.used, i), p.nfree + 1, p.numbpage, WriteBack(p.disk, p.used[i])), fd, i)
  }

  function ReleaseFile(p: Pool, fd: int): (int, Pool) { ReleaseFrom(p, fd, 0) }
}
