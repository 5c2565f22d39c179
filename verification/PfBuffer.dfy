/** The buffer manager of buf.c over its frames and its hash table.  Value() is the pool they
    make, and each routine is specified by the function of PfPool with its name. */
module PfBuffer {
  import opened PfPool
  import opened PfHash
  import opened PfFrames

  class BufMgr {
    const lists: Lists
    const hash: HashTable
    var numbpage: nat
    var bufferPolicy: int
    var disk: Disk
    var logicalReads: int
    var physicalReads: int
    var physicalWrites: int
    /** The frames malloc has given. */
    ghost var frames: set<BufPage>

    /** All but the agreement of the hash table with the used list. */
    ghost predicate Sound()
      reads this`numbpage, this`frames, lists, hash, hash.tbl, hash.entries, frames
    {
      && (forall f | f in lists.used :: f in frames) && (forall f | f in lists.free :: f in frames)
      && lists.Ok() && hash.Valid()
      && |lists.used| + |lists.free| == numbpage <= PF_MAX_BUFS
    }

    ghost predicate Valid()
      reads this`numbpage, this`frames, lists, hash, hash.tbl, hash.entries, frames
    {
      Sound() && Indexed(hash.pages, lists.used, Views(lists.used))
    }

    ghost function Value(): Pool
      reads this`numbpage, this`disk, lists, lists.used
    {
      Seen(lists.used)
    }

    /** The pool, if its used frames were fs. */
    ghost function Seen(fs: seq<BufPage>): Pool
      reads this`numbpage, this`disk, lists, fs
    {
      Pool(Views(fs), |lists.free|, numbpage, disk)
    }

    /** Frame bpage has just been put in front of the frames rest, which hold all the pages. */
    ghost predicate Taken(bpage: BufPage, rest: seq<BufPage>)
      reads this`numbpage, this`frames, lists, hash, hash.tbl, hash.entries, frames, rest
    {
      Sound() && lists.used == [bpage] + rest && bpage in frames && Indexed(hash.pages, rest, Views(rest))
    }

    constructor Init(policy: int, files: Disk)
      ensures Valid() && fresh(lists) && fresh(hash) && fresh(hash.tbl) && hash.entries == {} && frames == {}
      ensures Value() == Pool([], 0, 0, files) && bufferPolicy == policy
      ensures logicalReads == physicalReads == physicalWrites == 0
    {
      lists := new Lists();
      hash := new HashTable.Init();
      numbpage, bufferPolicy, disk := 0, policy, files;
      logicalReads, physicalReads, physicalWrites := 0, 0, 0;
      frames := {};
    }

    lemma PoolIsOk()
      requires Valid()
      ensures PoolOk(Value(), PF_MAX_BUFS)
    {
      DifferentViews(hash.pages, lists.used, Views(lists.used));
    }

    /** The loop of PFbufInternalAlloc that looks for a page to swap out. */
    method FindVictim() returns (tbpage: BufPage?, ghost v: nat)
      requires Sound()
      ensures v == Victim(Views(lists.used), bufferPolicy)
      ensures tbpage == if v < |lists.used| then lists.used[v] else null
    {
      ghost var fs, vs := lists.used, Views(lists.used);
      if bufferPolicy == 0 {
        tbpage := lists.lastbpage;
        ghost var i := |fs| - 1;
        while tbpage != null
          invariant -1 <= i < |fs| && tbpage == if i >= 0 then fs[i] else null
          invariant forall j | i < j < |fs| :: vs[j].fixed
          decreases i
        {
          assert LinkedAt(fs, i) && vs[i] == View(fs[i]);
          if !tbpage.fixed {
            v := i;
            VictimIs(vs, bufferPolicy, v);
            return;
          }
          tbpage, i := tbpage.prevpage, i - 1;
        }
      } else {
        tbpage := lists.firstbpage;
        ghost var i := 0;
        while tbpage != null
          invariant 0 <= i <= |fs| && tbpage == if i < |fs| then fs[i] else null
          invariant forall j | 0 <= j < i :: vs[j].fixed
          decreases |fs| - i
        {
          assert LinkedAt(fs, i) && vs[i] == View(fs[i]);
          if !tbpage.fixed {
            v := i;
            VictimIs(vs, bufferPolicy, v);
            return;
          }
          tbpage, i := tbpage.nextpage, i + 1;
        }
      }
      v := Victim(vs, bufferPolicy);
    }

    /** Frame bpage is on neither list; with it, all frames are there. */
    ghost predicate Loose(bpage: BufPage)
      reads this`numbpage, this`frames, lists, hash, hash.tbl, hash.entries, frames
    {
      && (forall f | f in lists.used :: f in frames) && (forall f | f in lists.free :: f in frames) && bpage in frames
      && lists.Ok() && hash.Valid() && bpage !in lists.used && bpage !in lists.free
      && |lists.used| + |lists.free| + 1 == numbpage <= PF_MAX_BUFS
      && Indexed(hash.pages, lists.used, Views(lists.used))
    }

    /** A frame from the free list. */
    method FrameFromFree() returns (bpage: BufPage)
      requires Valid() && lists.free != []
      modifies lists
      ensures Loose(bpage) && Value() == old(Value()).(nfree := old(Value()).nfree - 1)
    {
      hide HashTable.Valid, Lists.Ok, Indexed, Find;
      lists.Apart();
      bpage := lists.TakeFree();
    }

    /** A new frame from malloc. */
    method FrameFromMalloc() returns (bpage: BufPage)
      requires Valid() && numbpage < PF_MAX_BUFS
      modifies this`numbpage, this`frames
      ensures fresh(frames - old(frames)) && Loose(bpage) && Value() == old(Value()).(numbpage := old(numbpage) + 1)
    {
      hide HashTable.Valid, Lists.Ok, Indexed, Find;
      bpage := new BufPage();
      numbpage := numbpage + 1;
      frames := frames + {bpage};
    }

    /** The first part of PFbufInternalAlloc: a frame from the free list, from malloc, or a
        victim's. */
    method TakeFrame() returns (error: int, bpage: BufPage?)
      requires Valid()
      modifies this`numbpage, this`frames, this`disk, this`physicalWrites, lists, hash, hash.tbl, hash.entries, frames
      ensures fresh(frames - old(frames)) && hash.entries == old(hash.entries)
      ensures hash.pages.Keys <= old(hash.pages.Keys)
      ensures error == FrameTaken(old(Value()), PF_MAX_BUFS, bufferPolicy).0
      ensures error != PFE_OK ==> error == PFE_NOBUF && Valid() && Value() == old(Value())
      ensures physicalWrites == old(physicalWrites) + Written(old(Value()), PF_MAX_BUFS, bufferPolicy)
      ensures error == PFE_OK ==>
                && bpage != null && Loose(bpage)
                && Value() == FrameTaken(old(Value()), PF_MAX_BUFS, bufferPolicy).1
    {
      hide HashTable.Valid, Lists.Ok, Indexed, Victim, Without, Different, Find, Views;
      lists.Apart();
      error, bpage := PFE_OK, null;
      if lists.freebpage != null {
        bpage := FrameFromFree();
      } else if numbpage < PF_MAX_BUFS {
        bpage := FrameFromMalloc();
      } else {
        var tbpage;
        ghost var v;
        tbpage, v := FindVictim();
        if tbpage == null {
          return PFE_NOBUF, null;
        }
        bpage := tbpage;
        assert View(tbpage) == Views(lists.used)[v];
        if tbpage.dirty {
          physicalWrites := physicalWrites + 1;
        }
        Evict(tbpage, v);
      }
    }

    /** PFbufInternalAlloc: a frame is put at the head of the used list; what it holds is left
        over. */
    method InternalAlloc() returns (error: int, bpage: BufPage?, ghost rest: seq<BufPage>)
      requires Valid()
      modifies this`numbpage, this`frames, this`disk, this`physicalWrites, lists, hash, hash.tbl, hash.entries, frames
      ensures fresh(frames - old(frames)) && hash.entries == old(hash.entries)
      ensures hash.pages.Keys <= old(hash.pages.Keys)
      ensures error == FrameTaken(old(Value()), PF_MAX_BUFS, bufferPolicy).0
      ensures error != PFE_OK ==> error == PFE_NOBUF && Valid() && Value() == old(Value())
      ensures physicalWrites == old(physicalWrites) + Written(old(Value()), PF_MAX_BUFS, bufferPolicy)
      ensures error == PFE_OK ==> bpage != null && Taken(bpage, rest)
      ensures error == PFE_OK ==> Seen(rest) == FrameTaken(old(Value()), PF_MAX_BUFS, bufferPolicy).1
    {
      hide HashTable.Valid, Lists.Ok, Indexed, Find, FrameTaken, Views, Written;
      error, bpage := TakeFrame();
      rest := lists.used;
      if error == PFE_OK {
        LinkFrame(bpage);
      }
    }

    /** The page at position v leaves: it is written out if it is dirty, and taken off the hash
        table and the used list. */
    method Evict(tbpage: BufPage, ghost v: nat)
      requires Valid() && v < |lists.used| && lists.used[v] == tbpage
      modifies this`disk, lists, hash, hash.tbl, hash.entries, frames
      ensures Loose(tbpage) && hash.entries == old(hash.entries) && hash.pages.Keys <= old(hash.pages.Keys)
      ensures lists.used == Dropped(old(lists.used), v)
      ensures var p := old(Value()); Value() == p.(used := Without(p.used, v), disk := WriteBack(p.disk, p.used[v]))
    {
      hide HashTable.Valid, Lists.Ok, Indexed, Victim, Without, Find, Views;
      ghost var fs, vs := lists.used, Views(lists.used);
      lists.Apart();
      assert forall j | 0 <= j < |fs| :: View(fs[j]) == vs[j];
      WriteOut(tbpage);
      ghost var clean := vs[v].(dirty := false);
      IndexedSet(hash.pages, fs, vs, v, clean);
      ViewsAre(fs, vs[v := clean]);
      WithoutSet(vs, v, clean);
      Detach(tbpage, v);
    }

    /** The frame at position v is taken off the hash table and the used list. */
    method Detach(tbpage: BufPage, ghost v: nat)
      requires Valid() && v < |lists.used| && lists.used[v] == tbpage
      modifies lists, hash, hash.tbl, hash.entries, frames
      ensures Loose(tbpage) && hash.entries == old(hash.entries) && hash.pages.Keys <= old(hash.pages.Keys)
      ensures lists.used == Dropped(old(lists.used), v)
      ensures Views(lists.used) == Without(old(Views(lists.used)), v) && |lists.free| == old(|lists.free|)
    {
      hide HashTable.Valid, Lists.Ok, Indexed, Victim, Without, Different, Find, Views;
      ghost var fs, vs := lists.used, Views(lists.used);
      lists.Apart();
      assert View(tbpage) == vs[v];
      IndexedDropped(hash.pages, fs, vs, v);
      var error := hash.Delete(Pid(tbpage.fd, tbpage.page));
      UnlinkFrame(tbpage, v);
    }

    /** A dirty page is written to disk. */
    method WriteOut(bpage: BufPage)
      modifies this`disk, bpage`dirty
      ensures disk == WriteBack(old(disk), old(View(bpage))) && !bpage.dirty
    {
      if bpage.dirty {
        disk := disk[Pid(bpage.fd, bpage.page) := bpage.fpage];
      }
      bpage.dirty := false;
    }

    lemma UsedFacts()
      requires Valid()
      ensures lists.Ok() && Different(lists.used) && Indexed(hash.pages, lists.used, Views(lists.used))
      ensures lists.firstbpage == if lists.used != [] then lists.used[0] else null
    {
      hide HashTable.Valid, Indexed, Views;
      lists.Apart();
    }

    lemma InFrames(i: nat)
      requires Valid() && i < |lists.used|
      ensures lists.used[i] in frames
    {
    }

    /** The frame that holds a page, if one does. */
    method FrameOf(id: Pid) returns (bpage: BufPage?, ghost i: nat)
      requires Valid()
      ensures i == Find(Views(lists.used), id) && i <= |lists.used|
      ensures bpage == if i < |lists.used| then lists.used[i] else null
      ensures bpage != null ==> View(bpage) == Views(lists.used)[i] && View(bpage).id == id && bpage in frames
      ensures bpage != null <==> id in hash.pages
    {
      hide Lists.Ok, Indexed, Find, Views;
      lists.Apart();
      bpage := hash.Find(id);
      i := FrameFound(hash.pages, lists.used, Views(lists.used), id);
    }

    /** The frame at position i becomes what v says. */
    method SetFrame(bpage: BufPage, ghost i: nat, dirty: bool, fixed: bool, fpage: FPage)
      requires Valid() && i < |lists.used| && lists.used[i] == bpage
      modifies bpage`dirty, bpage`fixed, bpage`fpage
      ensures Valid()
      ensures var p := old(Value());
              Value() == p.(used := p.used[i := BPage(p.used[i].id, dirty, fixed, fpage)])
    {
      hide HashTable.Valid, Lists.Ok, Indexed, Find, Views;
      ghost var fs, vs := lists.used, Views(lists.used);
      lists.Apart();
      assert forall j | 0 <= j < |fs| :: View(fs[j]) == vs[j];
      bpage.dirty, bpage.fixed, bpage.fpage := dirty, fixed, fpage;
      ghost var v := BPage(vs[i].id, dirty, fixed, fpage);
      IndexedSet(hash.pages, fs, vs, i, v);
      ViewsAre(fs, vs[i := v]);
    }

    /** PFbufUnlink and PFbufLinkHead, one after the other: a page becomes the most recent. */
    method MoveToFront(bpage: BufPage, ghost i: nat)
      requires Valid() && i < |lists.used| && lists.used[i] == bpage
      modifies lists, frames`nextpage, frames`prevpage
      ensures Valid()
      ensures var p := old(Value()); Value() == p.(used := [p.used[i]] + Without(p.used, i))
    {
      hide HashTable.Valid, Lists.Ok, Indexed, Find, Views, Without;
      ghost var fs, vs := lists.used, Views(lists.used);
      lists.Apart();
      IndexedMoved(hash.pages, fs, vs, i, vs[i]);
      WithoutFacts(vs, i);
      UnlinkFrame(bpage, i);
      LinkFrame(bpage);
    }

    /** PFbufUnlink, seen from the pool. */
    method UnlinkFrame(bpage: BufPage, ghost i: nat)
      requires lists.Ok() && i < |lists.used| && lists.used[i] == bpage && forall f | f in lists.used :: f in frames
      modifies lists, frames`nextpage, frames`prevpage
      ensures lists.Ok() && lists.used == Dropped(old(lists.used), i) && lists.free == old(lists.free)
      ensures Views(lists.used) == Without(old(Views(lists.used)), i) && View(bpage) == old(Views(lists.used))[i]
      ensures bpage !in lists.used && bpage !in lists.free && forall f | f in lists.used :: f in frames
    {
      hide Lists.Ok, Find, Views, Without;
      ghost var fs, vs := lists.used, Views(lists.used);
      lists.Apart();
      assert forall j | 0 <= j < |fs| :: View(fs[j]) == vs[j];
      WithoutFacts(vs, i);
      DroppedFrom(fs, i, frames);
      lists.Unlink(bpage, i);
      ViewsAre(lists.used, Without(vs, i));
    }

    /** PFbufLinkHead, seen from the pool. */
    method LinkFrame(bpage: BufPage)
      requires lists.Ok() && bpage !in lists.used && bpage !in lists.free
      requires bpage in frames && forall f | f in lists.used :: f in frames
      modifies lists, frames`nextpage, frames`prevpage
      ensures lists.Ok() && lists.used == [bpage] + old(lists.used) && lists.free == old(lists.free)
      ensures Views(lists.used) == [old(View(bpage))] + old(Views(lists.used))
      ensures forall f | f in lists.used :: f in frames
      ensures Views(old(lists.used)) == old(Views(lists.used))
    {
      hide Lists.Ok, Find, Views;
      ghost var fs, vs := lists.used, Views(lists.used);
      assert forall j | 0 <= j < |fs| :: View(fs[j]) == vs[j];
      lists.LinkHead(bpage);
      ViewsAre(fs, vs);
      ViewsAre(lists.used, [View(bpage)] + vs);
    }

    /** PFbufUnfix */
    method Unfix(id: Pid, dirty: bool) returns (error: int)
      requires Valid()
      modifies lists, frames
      ensures Valid() && (error, Value()) == PfPool.Unfix(old(Value()), id, dirty)
    {
      hide HashTable.Valid, Lists.Ok, Indexed, Find, Views, Without, Sound;
      var bpage;
      ghost var i;
      bpage, i := FrameOf(id);
      if bpage == null {
        return PFE_PAGENOTINBUF;
      }
      if !bpage.fixed {
        return PFE_PAGEUNFIXED;
      }
      ghost var vs := Views(lists.used);
      SetFrame(bpage, i, bpage.dirty || dirty, false, bpage.fpage);
      WithoutSet(vs, i, Views(lists.used)[i]);
      MoveToFront(bpage, i);
      return PFE_OK;
    }

    /** PFbufUsed */
    method Used(id: Pid) returns (error: int)
      requires Valid()
      modifies lists, frames
      ensures Valid() && (error, Value()) == PfPool.Used(old(Value()), id)
    {
      hide HashTable.Valid, Lists.Ok, Indexed, Find, Views, Without, Sound;
      var bpage;
      ghost var i;
      bpage, i := FrameOf(id);
      if bpage == null {
        return PFE_PAGENOTINBUF;
      }
      if !bpage.fixed {
        return PFE_PAGEUNFIXED;
      }
      ghost var vs := Views(lists.used);
      SetFrame(bpage, i, true, bpage.fixed, bpage.fpage);
      WithoutSet(vs, i, Views(lists.used)[i]);
      MoveToFront(bpage, i);
      return PFE_OK;
    }

    /** The frame just taken is entered in the hash table for page id, fixed and clean. */
    method Enter(bpage: BufPage, id: Pid, fpage: FPage, ghost rest: seq<BufPage>)
      requires Taken(bpage, rest) && id !in hash.pages
      modifies hash, hash.tbl, hash.entries, bpage`fd, bpage`page, bpage`dirty, bpage`fixed, bpage`fpage
      ensures Valid() && fresh(hash.entries - old(hash.entries))
      ensures var t := old(Seen(rest)); Value() == t.(used := [BPage(id, false, true, fpage)] + t.used)
      ensures id in hash.pages && hash.pages[id] == bpage
    {
      hide HashTable.Valid, Lists.Ok, Indexed, Find, Views, Sound;
      SoundLists();
      RestApart(bpage, rest);
      IndexedFront(hash.pages, rest, Views(rest), bpage, BPage(id, false, true, fpage));
      Register(bpage, id, rest);
      Label(bpage, id, fpage, rest);
    }

    lemma SoundLists()
      requires Sound()
      ensures lists.Ok()
    {
    }

    method Register(bpage: BufPage, id: Pid, ghost rest: seq<BufPage>)
      requires Sound() && id !in hash.pages
      modifies hash, hash.tbl, hash.entries
      ensures Sound() && fresh(hash.entries - old(hash.entries)) && hash.pages == old(hash.pages)[id := bpage]
      ensures Views(rest) == old(Views(rest))
    {
      hide HashTable.Valid, Lists.Ok, Views;
      var error := hash.Insert(id, bpage);
    }

    method Label(bpage: BufPage, id: Pid, fpage: FPage, ghost rest: seq<BufPage>)
      requires Sound() && forall j | 0 <= j < |rest| :: rest[j] != bpage
      modifies bpage`fd, bpage`page, bpage`dirty, bpage`fixed, bpage`fpage
      ensures Sound() && Views([bpage] + rest) == [BPage(id, false, true, fpage)] + old(Views(rest))
    {
      hide HashTable.Valid, Lists.Ok, Views;
      ghost var vs := Views(rest);
      assert forall j | 0 <= j < |rest| :: View(rest[j]) == vs[j];
      bpage.fpage := fpage;
      bpage.fd, bpage.page, bpage.dirty, bpage.fixed := id.fd, id.page, false, true;
      ViewsAre(rest, vs);
      ViewsFront(bpage, rest);
    }

    lemma RestApart(bpage: BufPage, rest: seq<BufPage>)
      requires lists.Ok() && lists.used == [bpage] + rest
      ensures forall j | 0 <= j < |rest| :: rest[j] != bpage
      ensures Dropped(lists.used, 0) == rest
    {
      hide ListOk, FreeOk;
      lists.Apart();
      assert forall j | 0 <= j < |rest| :: lists.used[j + 1] == rest[j];
    }

    /** The frame just taken goes to the free list after all. */
    method GiveBack(bpage: BufPage, ghost rest: seq<BufPage>)
      requires Taken(bpage, rest)
      modifies lists, frames`nextpage, frames`prevpage
      ensures Valid() && Value() == old(Seen(rest)).(nfree := old(Seen(rest)).nfree + 1)
    {
      hide HashTable.Valid, Lists.Ok, Indexed, Find, Views, Without, Victim;
      ghost var vs := Views(rest);
      RestApart(bpage, rest);
      UnlinkFrame(bpage, 0);
      assert lists.used == rest;
      lists.InsertFree(bpage);
      assert Views(rest) == vs;
    }

    lemma WrittenOne(p: Pool)
      ensures 0 <= Written(p, PF_MAX_BUFS, bufferPolicy) <= 1
    {
    }

    /** PFbufGet: page id, fixed in a frame. */
    method Get(id: Pid) returns (error: int, bpage: BufPage?)
      requires Valid()
      modifies this`numbpage, this`frames, this`disk, this`logicalReads, this`physicalReads, this`physicalWrites
      modifies lists, hash, hash.tbl, hash.entries, frames
      ensures Valid() && fresh(frames - old(frames)) && fresh(hash.entries - old(hash.entries))
      ensures (error, Value()) == PfPool.Get(old(Value()), PF_MAX_BUFS, bufferPolicy, id)
      ensures (error == PFE_OK || error == PFE_PAGEFIXED) ==> id in hash.pages && bpage == hash.pages[id]
      ensures physicalWrites == old(physicalWrites) + if DirtyGone(old(Value()), Value()) then 1 else 0
      ensures logicalReads == old(logicalReads) + 1
      ensures physicalReads == old(physicalReads) + if error == PFE_OK && !Resident(old(Value()), id) then 1 else 0
    {
      hide HashTable.Valid, Lists.Ok, Indexed, Find, Views, FrameTaken, Sound, Written, DirtyGone;
      PoolIsOk();
      GetWrites(Value(), PF_MAX_BUFS, bufferPolicy, id);
      WrittenOne(Value());
      logicalReads := logicalReads + 1;
      ghost var i;
      bpage, i := FrameOf(id);
      if bpage == null {
        error, bpage := ReadIn(id);
        return;
      }
      FrameIs(id, i);
      if bpage.fixed {
        return PFE_PAGEFIXED, bpage;
      }
      SetFrame(bpage, i, bpage.dirty, true, bpage.fpage);
      error := PFE_OK;
    }

    /** PFbufGet for a page that is not in the buffer. */
    method ReadIn(id: Pid) returns (error: int, bpage: BufPage?)
      requires Valid() && id !in hash.pages && !Resident(Value(), id)
      modifies this`numbpage, this`frames, this`disk, this`physicalReads, this`physicalWrites
      modifies lists, hash, hash.tbl, hash.entries, frames
      ensures Valid() && fresh(frames - old(frames)) && fresh(hash.entries - old(hash.entries))
      ensures (error, Value()) == PfPool.Get(old(Value()), PF_MAX_BUFS, bufferPolicy, id)
      ensures error == PFE_OK ==> id in hash.pages && bpage == hash.pages[id]
      ensures physicalWrites == old(physicalWrites) + Written(old(Value()), PF_MAX_BUFS, bufferPolicy)
      ensures error != PFE_PAGEFIXED && physicalReads == old(physicalReads) + if error == PFE_OK then 1 else 0
    {
      hide HashTable.Valid, Lists.Ok, Indexed, Find, Views, FrameTaken, Sound, Written, DirtyGone;
      ghost var rest;
      error, bpage, rest := InternalAlloc();
      if error != PFE_OK {
        return error, null;
      }
      if id !in disk {
        GiveBack(bpage, rest);
        return PFE_INCOMPLETEREAD, null;
      }
      Enter(bpage, id, disk[id], rest);
      physicalReads := physicalReads + 1;
    }

    lemma FrameIs(id: Pid, i: nat)
      requires Valid() && i == Find(Views(lists.used), id) < |lists.used|
      ensures id in hash.pages && hash.pages[id] == lists.used[i]
    {
      hide HashTable.Valid, Lists.Ok, Find, Views;
    }

    /** PFbufAlloc: a frame for a new page; its content is what the frame held. */
    method Alloc(id: Pid) returns (error: int, bpage: BufPage?, ghost left: FPage)
      requires Valid()
      modifies this`numbpage, this`frames, this`disk, this`physicalWrites
      modifies lists, hash, hash.tbl, hash.entries, frames
      ensures Valid() && fresh(frames - old(frames)) && fresh(hash.entries - old(hash.entries))
      ensures (error, Value()) == PfPool.Alloc(old(Value()), PF_MAX_BUFS, bufferPolicy, id, left)
      ensures physicalWrites == old(physicalWrites) + if DirtyGone(old(Value()), Value()) then 1 else 0
      ensures error == PFE_OK ==> id in hash.pages && bpage == hash.pages[id]
    {
      hide HashTable.Valid, Lists.Ok, Indexed, Find, Views, FrameTaken, Sound, Written, DirtyGone;
      PoolIsOk();
      ghost var p := Value();
      WrittenOne(p);
      left := FPage(0, []);
      AllocWrites(p, PF_MAX_BUFS, bufferPolicy, id, left);
      ghost var i;
      bpage, i := FrameOf(id);
      if bpage != null {
        return PFE_PAGEINBUF, null, left;
      }
      ghost var rest;
      error, bpage, rest := InternalAlloc();
      if error != PFE_OK {
        return error, null, left;
      }
      left := bpage.fpage;
      AllocWrites(p, PF_MAX_BUFS, bufferPolicy, id, left);
      Enter(bpage, id, bpage.fpage, rest);
      error := PFE_OK;
    }

    /** What a client does through the pointer to a page it has fixed. */
    method Write(id: Pid, bpage: BufPage, fpage: FPage)
      requires Valid() && id in hash.pages && hash.pages[id] == bpage
      modifies frames`dirty, frames`fixed, frames`fpage
      ensures Valid() && Value() == Store(old(Value()), id, fpage) && hash.pages == old(hash.pages)
    {
      hide HashTable.Valid, Lists.Ok, Indexed, Find, Views, Sound;
      UsedFacts();
      ghost var i := FrameFound(hash.pages, lists.used, Views(lists.used), id);
      InFrames(i);
      SetFrame(bpage, i, bpage.dirty, bpage.fixed, fpage);
    }

    /** The same for a client that may have no pointer to write through, and then writes nothing. */
    method WriteFixed(id: Pid, fpage: FPage) returns (error: int)
      requires Valid()
      modifies frames`dirty, frames`fixed, frames`fpage
      ensures Valid()
      ensures var p := old(Value());
              if IsFixed(p, id) then error == PFE_OK && Value() == Store(p, id, fpage)
              else error == PFE_PAGEUNFIXED && Value() == p
    {
      hide HashTable.Valid, Lists.Ok, Indexed, Find, Views, Sound, Store;
      var bpage;
      ghost var i;
      bpage, i := FrameOf(id);
      error := PFE_PAGEUNFIXED;
      if bpage != null && bpage.fixed {
        FrameIs(id, i);
        Write(id, bpage, fpage);
        error := PFE_OK;
      }
    }

    /** PFbufReleaseFile: the pages of fd are written out if dirty, and their frames go to the
        free list; it stops at the first one that is fixed. */
    method ReleaseFile(fd: int) returns (error: int)
      requires Valid()
      modifies this`disk, lists, hash, hash.tbl, hash.entries, frames
      ensures Valid() && hash.entries == old(hash.entries)
      ensures (error, Value()) == PfPool.ReleaseFile(old(Value()), fd)
    {
      hide Valid, Views, ReleaseFrom;
      ghost var i := 0;
      ghost var p := Value();
      AtFront();
      var bpage := lists.firstbpage;
      while bpage != null
        invariant Valid() && hash.entries == old(hash.entries)
        invariant At(bpage, i) && ReleaseFrom(p, fd, 0) == ReleaseFrom(Value(), fd, i)
        decreases |lists.used| - i
      {
        if bpage.fd == fd && bpage.fixed {
          ReleaseStops(fd, bpage, i);
          return PFE_PAGEFIXED;
        }
        bpage, i := ReleaseStep(fd, bpage, i);
      }
      ReleaseEnds(fd, i);
      error := PFE_OK;
    }

    /** bpage is the frame at position i of the used list, or null at its end. */
    ghost predicate At(bpage: BufPage?, i: nat)
      reads lists
    {
      i <= |lists.used| && bpage == if i < |lists.used| then lists.used[i] else null
    }

    lemma AtFront()
      requires Valid()
      ensures At(lists.firstbpage, 0)
    {
      hide HashTable.Valid, Lists.Ok, Indexed, Find, Views, Sound;
      UsedFacts();
    }

    lemma ReleaseStops(fd: int, bpage: BufPage, i: nat)
      requires Valid() && At(bpage, i) && bpage.fd == fd && bpage.fixed
      ensures ReleaseFrom(Value(), fd, i) == (PFE_PAGEFIXED, Value())
    {
      hide HashTable.Valid, Lists.Ok, Indexed, Find, Views, Sound;
      ViewAt(i);
    }

    lemma ReleaseEnds(fd: int, i: nat)
      requires At(null, i)
      ensures ReleaseFrom(Value(), fd, i) == (PFE_OK, Value())
    {
      hide Views;
    }

    /** One turn of its loop, at a frame that is not a fixed page of fd. */
    method ReleaseStep(fd: int, bpage: BufPage, ghost i: nat) returns (next: BufPage?, ghost j: nat)
      requires Valid() && At(bpage, i) && !(bpage.fd == fd && bpage.fixed)
      modifies this`disk, lists, hash, hash.tbl, hash.entries, frames
      ensures Valid() && hash.entries == old(hash.entries) && At(next, j)
      ensures ReleaseFrom(old(Value()), fd, i) == ReleaseFrom(Value(), fd, j)
      ensures |lists.used| - j < |old(lists.used)| - i
    {
      hide HashTable.Valid, Lists.Ok, Indexed, Find, Views, Sound, Without, ReleaseFrom, WriteBack;
      UsedFacts();
      lists.NextOf(i);
      ViewAt(i);
      ReleaseNext(Value(), fd, i);
      next := bpage.nextpage;
      if bpage.fd == fd {
        Release(bpage, i);
        j := i;
      } else {
        j := i + 1;
      }
    }

    lemma ViewAt(i: nat)
      requires i < |lists.used|
      ensures Views(lists.used)[i] == View(lists.used[i])
    {
    }

    /** A page leaves the pool, and its frame goes to the free list. */
    method Release(bpage: BufPage, ghost i: nat)
      requires Valid() && i < |lists.used| && lists.used[i] == bpage
      modifies this`disk, lists, hash, hash.tbl, hash.entries, frames
      ensures Valid() && hash.entries == old(hash.entries) && lists.used == Dropped(old(lists.used), i)
      ensures var p := old(Value());
              Value() == Pool(Without(p.used, i), p.nfree + 1, p.numbpage, WriteBack(p.disk, p.used[i]))
    {
      hide HashTable.Valid, Lists.Ok, Indexed, Find, Views, Without;
      Evict(bpage, i);
      ghost var fs, vs := lists.used, Views(lists.used);
      assert forall j | 0 <= j < |fs| :: View(fs[j]) == vs[j];
      lists.InsertFree(bpage);
      ViewsAre(fs, vs);
    }
  }

  lemma ReleaseNext(p: Pool, fd: int, i: nat)
    requires i < |p.used|
    ensures ReleaseFrom(p, fd, i) ==
            if p.used[i].id.fd != fd then ReleaseFrom(p, fd, i + 1)
            else if p.used[i].fixed then (PFE_PAGEFIXED, p)
            else ReleaseFrom(Pool(Without(p.used, i), p.nfree + 1, p.numbpage, WriteBack(p.disk, p.used[i])), fd, i)
  {
  }
}
