/** The frames of buf.c: the doubly linked list of used ones, the list of free ones, and how they
    are seen as the pool's list of pages. */
module PfFrames {
  import opened PfPool
  import opened PfHash

  function View(f: BufPage): BPage
    reads f`fd, f`page, f`dirty, f`fixed, f`fpage
  {
    BPage(Pid(f.fd, f.page), f.dirty, f.fixed, f.fpage)
  }

  ghost function Views(fs: seq<BufPage>): (vs: seq<BPage>)
    reads fs`fd, fs`page, fs`dirty, fs`fixed, fs`fpage
    ensures |vs| == |fs| && forall i | 0 <= i < |vs| :: vs[i] == View(fs[i])
  {
    if fs == [] then [] else [View(fs[0])] + Views(fs[1..])
  }

  ghost predicate Different(fs: seq<BufPage>) {
    forall i, j | 0 <= i < j < |fs| :: fs[i] != fs[j]
  }

  ghost predicate LinkedAt(fs: seq<BufPage>, i: nat)
    requires i < |fs|
    reads fs`nextpage, fs`prevpage
  {
    && fs[i].nextpage == (if i + 1 < |fs| then fs[i + 1] else null)
    && fs[i].prevpage == (if i > 0 then fs[i - 1] else null)
  }

  /** The used list: fs from first to last, linked both ways. */
  ghost predicate ListOk(first: BufPage?, last: BufPage?, fs: seq<BufPage>)
    reads fs`nextpage, fs`prevpage
  {
    && first == (if |fs| > 0 then fs[0] else null)
    && last == (if |fs| > 0 then fs[|fs| - 1] else null)
    && Different(fs)
    && forall i | 0 <= i < |fs| :: LinkedAt(fs, i)
  }

  ghost predicate FreeAt(fs: seq<BufPage>, i: nat)
    requires i < |fs|
    reads fs`nextpage
  {
    fs[i].nextpage == if i + 1 < |fs| then fs[i + 1] else null
  }

  ghost predicate FreeOk(head: BufPage?, fs: seq<BufPage>)
    reads fs`nextpage
  {
    && head == (if |fs| > 0 then fs[0] else null)
    && Different(fs)
    && forall i | 0 <= i < |fs| :: FreeAt(fs, i)
  }

  /** The hash table finds exactly the frames fs, which hold the pages vs. */
  ghost predicate Indexed(pages: map<Pid, BufPage>, fs: seq<BufPage>, vs: seq<BPage>) {
    && |fs| == |vs|
    && (forall i | 0 <= i < |fs| :: vs[i].id in pages && pages[vs[i].id] == fs[i])
    && (forall id | id in pages :: exists i :: 0 <= i < |fs| && fs[i] == pages[id] && vs[i].id == id)
  }

  ghost function Dropped(fs: seq<BufPage>, i: nat): (t: seq<BufPage>)
    requires i < |fs|
    ensures |t| == |fs| - 1 && forall j | 0 <= j < |t| :: t[j] == fs[if j < i then j else j + 1]
  {
    fs[..i] + fs[i + 1..]
  }

  class Lists {
    var firstbpage: BufPage?
    var lastbpage: BufPage?
    var freebpage: BufPage?
    ghost var used: seq<BufPage>
    ghost var free: seq<BufPage>

    ghost predicate Ok()
      reads this, used`nextpage, used`prevpage, free`nextpage
    {
      && ListOk(firstbpage, lastbpage, used) && FreeOk(freebpage, free)
      && forall f | f in used :: f !in free
    }

    constructor ()
      ensures Ok() && used == free == []
    {
      firstbpage, lastbpage, freebpage := null, null, null;
      used, free := [], [];
    }

    lemma Apart()
      requires Ok()
      ensures Different(used) && forall f | f in used :: f !in free
      ensures firstbpage == if used != [] then used[0] else null
      ensures freebpage == if free != [] then free[0] else null
    {
    }

    lemma NextOf(i: nat)
      requires Ok() && i < |used|
      ensures used[i].nextpage == if i + 1 < |used| then used[i + 1] else null
    {
      assert LinkedAt(used, i);
    }

    /** PFbufInsertFree */
    method InsertFree(bpage: BufPage)
      requires Ok() && bpage !in used && bpage !in free
      modifies this`freebpage, this`free, bpage`nextpage
      ensures Ok() && free == [bpage] + old(free)
    {
      ghost var fs := free;
      assert forall i | 0 <= i < |fs| :: FreeAt(fs, i);
      assert forall i | 0 <= i < |used| :: LinkedAt(used, i);
      bpage.nextpage := freebpage;
      freebpage := bpage;
      free := [bpage] + fs;
      forall i | 0 <= i < |free| ensures FreeAt(free, i) {
        if i > 0 { assert free[i] == fs[i - 1] && old(FreeAt(fs, i - 1)); }
      }
    }

    /** The head of the free list is taken off it. */
    method TakeFree() returns (bpage: BufPage)
      requires Ok() && free != []
      modifies this`freebpage, this`free
      ensures Ok() && bpage == old(free)[0] && free == old(free)[1..] && bpage !in used && bpage !in free
    {
      ghost var fs := free;
      assert FreeAt(fs, 0);
      bpage := freebpage;
      freebpage := bpage.nextpage;
      free := fs[1..];
      forall i | 0 <= i < |free| ensures FreeAt(free, i) {
        assert FreeAt(fs, i + 1);
      }
    }

    /** PFbufLinkHead */
    method LinkHead(bpage: BufPage)
      requires Ok() && bpage !in used && bpage !in free
      modifies this`firstbpage, this`lastbpage, this`used
      modifies used`prevpage, bpage`nextpage, bpage`prevpage
      ensures Ok() && used == [bpage] + old(used)
    {
      ghost var fs := used;
      assert forall i | 0 <= i < |fs| :: LinkedAt(fs, i);
      assert forall i | 0 <= i < |free| :: FreeAt(free, i);
      bpage.nextpage := firstbpage;
      bpage.prevpage := null;
      if firstbpage != null {
        firstbpage.prevpage := bpage;
      }
      firstbpage := bpage;
      if lastbpage == null {
        lastbpage := bpage;
      }
      used := [bpage] + fs;
      forall i | 0 <= i < |used| ensures LinkedAt(used, i) {
        if i > 0 { assert used[i] == fs[i - 1] && old(LinkedAt(fs, i - 1)); }
        if i > 1 { assert used[i - 1] == fs[i - 2]; }
        if i + 1 < |used| { assert used[i + 1] == fs[i]; }
      }
    }

    /** PFbufUnlink */
    method Unlink(bpage: BufPage, ghost i: nat)
      requires Ok() && i < |used| && used[i] == bpage
      modifies this`firstbpage, this`lastbpage, this`used
      modifies used`nextpage, used`prevpage
      ensures Ok() && used == Dropped(old(used), i) && bpage !in used
    {
      ghost var fs := used;
      assert LinkedAt(fs, i);
      assert i > 0 ==> LinkedAt(fs, i - 1);
      assert i + 1 < |fs| ==> LinkedAt(fs, i + 1);
      if firstbpage == bpage {
        firstbpage := bpage.nextpage;
      }
      if lastbpage == bpage {
        lastbpage := bpage.prevpage;
      }
      if bpage.nextpage != null {
        bpage.nextpage.prevpage := bpage.prevpage;
      }
      if bpage.prevpage != null {
        bpage.prevpage.nextpage := bpage.nextpage;
      }
      bpage.prevpage, bpage.nextpage := null, null;
      used := Dropped(fs, i);
      forall j | 0 <= j < |used| ensures LinkedAt(used, j) {
        var k := if j < i then j else j + 1;
        assert used[j] == fs[k] && old(LinkedAt(fs, k));
        if j > 0 { assert used[j - 1] == fs[if j - 1 < i then j - 1 else j]; }
        if j + 1 < |used| { assert used[j + 1] == fs[if j + 1 < i then j + 1 else j + 2]; }
      }
      forall j | 0 <= j < |free| ensures FreeAt(free, j) {
        assert free[j] !in fs && old(FreeAt(free, j));
      }
    }
  }

  lemma DroppedFrom(fs: seq<BufPage>, i: nat, frames: set<BufPage>)
    requires i < |fs| && forall f | f in fs :: f in frames
    ensures forall f | f in Dropped(fs, i) :: f in frames
  {
    forall f | f in Dropped(fs, i) ensures f in frames {
      var j :| 0 <= j < |Dropped(fs, i)| && Dropped(fs, i)[j] == f;
      assert fs[if j < i then j else j + 1] in fs;
    }
  }

  // ---- frames and their views ----

  lemma DifferentViews(pages: map<Pid, BufPage>, fs: seq<BufPage>, vs: seq<BPage>)
    requires Indexed(pages, fs, vs) && Different(fs)
    ensures Distinct(vs)
  {
  }

  /** Where the list has the page that the hash table finds. */
  lemma FrameFound(pages: map<Pid, BufPage>, fs: seq<BufPage>, vs: seq<BPage>, id: Pid) returns (i: nat)
    requires Indexed(pages, fs, vs) && Different(fs)
    ensures i == Find(vs, id)
    ensures i < |fs| <==> id in pages
    ensures id in pages ==> fs[i] == pages[id] && vs[i].id == id
  {
    DifferentViews(pages, fs, vs);
    i := Find(vs, id);
    if id in pages {
      var j :| 0 <= j < |fs| && fs[j] == pages[id] && vs[j].id == id;
      FindAt(vs, j);
    }
  }

  lemma ViewsFront(f: BufPage, fs: seq<BufPage>)
    ensures Views([f] + fs) == [View(f)] + Views(fs)
  {
    assert ([f] + fs)[1..] == fs;
  }

  lemma IndexedDropped(pages: map<Pid, BufPage>, fs: seq<BufPage>, vs: seq<BPage>, i: nat)
    requires Indexed(pages, fs, vs) && Different(fs) && i < |fs|
    ensures Indexed(pages - {vs[i].id}, Dropped(fs, i), Without(vs, i))
  {
    var ps, ds, ws := pages - {vs[i].id}, Dropped(fs, i), Without(vs, i);
    DifferentViews(pages, fs, vs);
    WithoutFacts(vs, i);
    forall id | id in ps ensures exists j :: 0 <= j < |ds| && ds[j] == ps[id] && ws[j].id == id {
      var k :| 0 <= k < |fs| && fs[k] == pages[id] && vs[k].id == id;
      var j := if k < i then k else k - 1;
      assert ds[j] == fs[k] && ws[j] == vs[k];
    }
  }

  lemma IndexedFront(pages: map<Pid, BufPage>, fs: seq<BufPage>, vs: seq<BPage>, f: BufPage, v: BPage)
    requires Indexed(pages, fs, vs) && v.id !in pages
    ensures Indexed(pages[v.id := f], [f] + fs, [v] + vs)
  {
    var ps, ds, ws := pages[v.id := f], [f] + fs, [v] + vs;
    forall j | 0 <= j < |ds| ensures ws[j].id in ps && ps[ws[j].id] == ds[j] {
      if j > 0 { assert ds[j] == fs[j - 1] && ws[j] == vs[j - 1]; }
    }
    forall id | id in ps ensures exists j :: 0 <= j < |ds| && ds[j] == ps[id] && ws[j].id == id {
      if id == v.id {
        assert ds[0] == f && ws[0] == v;
      } else {
        var k :| 0 <= k < |fs| && fs[k] == pages[id] && vs[k].id == id;
        assert ds[k + 1] == fs[k] && ws[k + 1] == vs[k];
      }
    }
  }

  lemma IndexedMoved(pages: map<Pid, BufPage>, fs: seq<BufPage>, vs: seq<BPage>, i: nat, v: BPage)
    requires Indexed(pages, fs, vs) && Different(fs) && i < |fs| && v.id == vs[i].id
    ensures Indexed(pages, [fs[i]] + Dropped(fs, i), [v] + Without(vs, i))
  {
    IndexedDropped(pages, fs, vs, i);
    IndexedFront(pages - {v.id}, Dropped(fs, i), Without(vs, i), fs[i], v);
    assert (pages - {v.id})[v.id := fs[i]] == pages;
  }

  lemma IndexedSet(pages: map<Pid, BufPage>, fs: seq<BufPage>, vs: seq<BPage>, i: nat, v: BPage)
    requires Indexed(pages, fs, vs) && i < |fs| && v.id == vs[i].id
    ensures Indexed(pages, fs, vs[i := v])
  {
    var ws := vs[i := v];
    assert forall j | 0 <= j < |ws| :: ws[j].id == vs[j].id;
  }

  /** Views, element by element. */
  lemma ViewsAre(fs: seq<BufPage>, vs: seq<BPage>)
    requires |fs| == |vs| && forall i | 0 <= i < |fs| :: View(fs[i]) == vs[i]
    ensures Views(fs) == vs
  {
  }

  lemma AllFixed(used: seq<BPage>, policy: int)
    ensures Victim(used, policy) == |used| <==> forall i | 0 <= i < |used| :: used[i].fixed
  {
  }

  lemma VictimIs(used: seq<BPage>, policy: int, v: nat)
    requires v < |used| && !used[v].fixed
    requires policy == 0 ==> forall i | v < i < |used| :: used[i].fixed
    requires policy != 0 ==> forall i | 0 <= i < v :: used[i].fixed
    ensures Victim(used, policy) == v
  {
    AllFixed(used, policy);
  }
}
