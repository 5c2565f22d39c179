/** Runs of the buffer pool: for any sequence of calls by clients that keep to the discipline,
    the pool over the disk refines a store without buffers.  And which page is evicted. */
module PfRun {
  import opened PfPool
  import opened PfStore

  datatype Event =
    | EGet(id: Pid)
    | EUnfix(id: Pid, dirty: bool)
    | EAlloc(id: Pid, fpage: FPage)
    | EUsed(id: Pid)
    | ERelease(fd: int)
    | EStore(id: Pid, fpage: FPage)

  /** One call.  A client writes only to pages it has fixed. */
  function Step(p: Pool, cap: nat, policy: int, e: Event): (int, Pool) {
    match e
    case EGet(id) => Get(p, cap, policy, id)
    case EUnfix(id, dirty) => Unfix(p, id, dirty)
    case EAlloc(id, x) => Alloc(p, cap, policy, id, x)
    case EUsed(id) => Used(p, id)
    case ERelease(fd) => ReleaseFile(p, fd)
    case EStore(id, x) =>
      if IsFixed(p, id) then (PFE_OK, Store(p, id, x))
      else (PFE_PAGEUNFIXED, p)
  }

  /** The same call on a store without buffers: only Alloc and writes change a page. */
  function PlainStep(s: map<Pid, FPage>, e: Event, error: int): map<Pid, FPage> {
    if error != PFE_OK then s
    else match e
      case EAlloc(id, x) => s[id := x]
      case EStore(id, x) => s[id := x]
      case _ => s
  }

  ghost predicate Refines(p: Pool, s: map<Pid, FPage>) {
    forall id :: Logical(p, id) == if id in s then Present(s[id]) else Absent
  }

  /** One call keeps the pool in order and the refinement, and evicts no fixed page. */
  lemma StepRefines(p: Pool, cap: nat, policy: int, e: Event, s: map<Pid, FPage>)
    requires PoolOk(p, cap) && CleanOk(p) && Refines(p, s)
    requires e.EUnfix? ==> Disciplined(p, e.id, e.dirty)
    ensures var (error, t) := Step(p, cap, policy, e);
            && PoolOk(t, cap) && CleanOk(t) && Refines(t, PlainStep(s, e, error))
            && forall id | IsFixed(p, id) && !(e.EUnfix? && e.id == id) :: IsFixed(t, id)
  {
    hide Logical, CleanOk, Disciplined, Distinct;
    match e
    case EGet(id) => GetKeeps(p, cap, policy, id);
    case EUnfix(id, dirty) => UnfixKeeps(p, cap, id, dirty);
    case EAlloc(id, x) => AllocKeeps(p, cap, policy, id, x);
    case EUsed(id) => UsedKeeps(p, cap, id);
    case ERelease(fd) => ReleaseKeeps(p, cap, fd, 0);
    case EStore(id, x) => if IsFixed(p, id) { StoreKeeps(p, cap, id, x); }
  }

  ghost function After(p: Pool, cap: nat, policy: int, es: seq<Event>): Pool {
    if es == [] then p else Step(After(p, cap, policy, es[..|es| - 1]), cap, policy, es[|es| - 1]).1
  }

  ghost function PlainAfter(p: Pool, cap: nat, policy: int, s: map<Pid, FPage>, es: seq<Event>): map<Pid, FPage> {
    if es == [] then s
    else
      var init, e := es[..|es| - 1], es[|es| - 1];
      PlainStep(PlainAfter(p, cap, policy, s, init), e, Step(After(p, cap, policy, init), cap, policy, e).0)
  }

  /** Cache transparency over whole runs in which every page changed while it was fixed is unfixed dirty. */
  lemma {:induction false} RunRefines(p: Pool, cap: nat, policy: int, s: map<Pid, FPage>, es: seq<Event>)
    requires PoolOk(p, cap) && CleanOk(p) && Refines(p, s)
    requires forall i | 0 <= i < |es| && es[i].EUnfix? ::
               Disciplined(After(p, cap, policy, es[..i]), es[i].id, es[i].dirty)
    ensures var t := After(p, cap, policy, es);
            PoolOk(t, cap) && CleanOk(t) && Refines(t, PlainAfter(p, cap, policy, s, es))
  {
    if es != [] {
      var init := es[..|es| - 1];
      assert forall i | 0 <= i < |init| :: init[..i] == es[..i] && init[i] == es[i];
      RunRefines(p, cap, policy, s, init);
      StepRefines(After(p, cap, policy, init), cap, policy, es[|es| - 1], PlainAfter(p, cap, policy, s, init));
    }
  }

  // ---- the victim ----

  /** When each page was last unfixed, by a clock that ticks at every call. */
  type Stamps = map<Pid, int>

  /** Of two pages that nobody has fixed, the one nearer the front was unfixed later. */
  ghost predicate StampsOk(p: Pool, stamps: Stamps, now: int) {
    && (forall i | 0 <= i < |p.used| && !p.used[i].fixed :: p.used[i].id in stamps && stamps[p.used[i].id] < now)
    && (forall i, j | 0 <= i < j < |p.used| && !p.used[i].fixed && !p.used[j].fixed ::
          stamps[p.used[j].id] < stamps[p.used[i].id])
  }

  ghost function Stamp(p: Pool, stamps: Stamps, now: int, e: Event): Stamps {
    if e.EUnfix? && Unfix(p, e.id, e.dirty).0 == PFE_OK then stamps[e.id := now] else stamps
  }

  lemma StampsWithout(p: Pool, stamps: Stamps, now: int, i: nat, n: nat, m: nat, d: Disk)
    requires StampsOk(p, stamps, now) && i < |p.used|
    ensures StampsOk(Pool(Without(p.used, i), n, m, d), stamps, now)
  {
    WithoutFacts(p.used, i);
    var t := Without(p.used, i);
    forall x, y | 0 <= x < y < |t| && !t[x].fixed && !t[y].fixed ensures stamps[t[y].id] < stamps[t[x].id] {
      assert t[x] == p.used[if x < i then x else x + 1] && t[y] == p.used[if y < i then y else y + 1];
    }
  }

  lemma StampsFront(p: Pool, stamps: Stamps, now: int, b: BPage, s: Stamps)
    requires StampsOk(p, stamps, now) && forall i | 0 <= i < |p.used| :: p.used[i].id != b.id
    requires if b.fixed then s == stamps else s == stamps[b.id := now]
    ensures StampsOk(p.(used := [b] + p.used), s, now + 1)
  {
    var t := [b] + p.used;
    forall x, y | 0 <= x < y < |t| && !t[x].fixed && !t[y].fixed ensures s[t[y].id] < s[t[x].id] {
      assert t[y] == p.used[y - 1];
      if x > 0 { assert t[x] == p.used[x - 1]; }
    }
  }

  lemma OthersDiffer(p: Pool, i: nat)
    requires Distinct(p.used) && i < |p.used|
    ensures forall j | 0 <= j < |Without(p.used, i)| :: Without(p.used, i)[j].id != p.used[i].id
  {
    WithoutFacts(p.used, i);
  }

  lemma StampsTaken(p: Pool, cap: nat, policy: int, stamps: Stamps, now: int)
    requires StampsOk(p, stamps, now)
    ensures StampsOk(FrameTaken(p, cap, policy).1, stamps, now)
  {
    var v := Victim(p.used, policy);
    if v < |p.used| {
      StampsWithout(p, stamps, now, v, p.nfree, p.numbpage, WriteBack(p.disk, p.used[v]));
    }
  }

  lemma {:induction false} StampsReleased(p: Pool, fd: int, i: nat, stamps: Stamps, now: int)
    requires StampsOk(p, stamps, now) && i <= |p.used|
    ensures StampsOk(ReleaseFrom(p, fd, i).1, stamps, now)
    decreases |p.used| - i
  {
    if i < |p.used| {
      if p.used[i].id.fd != fd {
        StampsReleased(p, fd, i + 1, stamps, now);
      } else if !p.used[i].fixed {
        StampsWithout(p, stamps, now, i, p.nfree + 1, p.numbpage, WriteBack(p.disk, p.used[i]));
        var t := Pool(Without(p.used, i), p.nfree + 1, p.numbpage, WriteBack(p.disk, p.used[i]));
        StampsReleased(t, fd, i, stamps, now);
      }
    }
  }

  lemma StampsLater(p: Pool, stamps: Stamps, now: int)
    requires StampsOk(p, stamps, now)
    ensures StampsOk(p, stamps, now + 1)
  {
  }

  /** Every call keeps the list in the order of last unfixes. */
  lemma StampsKept(p: Pool, cap: nat, policy: int, e: Event, stamps: Stamps, now: int)
    requires PoolOk(p, cap) && CleanOk(p) && StampsOk(p, stamps, now)
    ensures StampsOk(Step(p, cap, policy, e).1, Stamp(p, stamps, now, e), now + 1)
  {
    hide StampsOk, CleanOk;
    StampsLater(p, stamps, now);
    match e
    case EGet(id) =>
      FrameTakenKeeps(p, cap, policy);
      StampsTaken(p, cap, policy, stamps, now);
      GetStamps(p, cap, policy, id, stamps, now);
    case EUnfix(id, dirty) =>
      var i := Find(p.used, id);
      if i < |p.used| && p.used[i].fixed {
        StampsWithout(p, stamps, now, i, p.nfree, p.numbpage, p.disk);
        OthersDiffer(p, i);
        var t := Pool(Without(p.used, i), p.nfree, p.numbpage, p.disk);
        var b := p.used[i].(fixed := false, dirty := p.used[i].dirty || dirty);
        StampsFront(t, stamps, now, b, stamps[id := now]);
      }
    case EAlloc(id, x) =>
      FrameTakenKeeps(p, cap, policy);
      StampsTaken(p, cap, policy, stamps, now);
      var t := FrameTaken(p, cap, policy).1;
      if !Resident(p, id) {
        NotThere(t, id);
        StampsFront(t, stamps, now, BPage(id, false, true, x), stamps);
      }
    case EUsed(id) =>
      var i := Find(p.used, id);
      if i < |p.used| && p.used[i].fixed {
        StampsWithout(p, stamps, now, i, p.nfree, p.numbpage, p.disk);
        OthersDiffer(p, i);
        var t := Pool(Without(p.used, i), p.nfree, p.numbpage, p.disk);
        StampsFront(t, stamps, now, p.used[i].(dirty := true), stamps);
      }
    case ERelease(fd) =>
      StampsReleased(p, fd, 0, stamps, now);
      StampsLater(ReleaseFile(p, fd).1, stamps, now);
    case EStore(id, x) =>
      StampsInPlace(p, Find(p.used, id), x, stamps, now);
  }

  lemma NotThere(t: Pool, id: Pid)
    requires !Resident(t, id)
    ensures forall i | 0 <= i < |t.used| :: t.used[i].id != id
  {
  }

  lemma StampsInPlace(p: Pool, i: nat, x: FPage, stamps: Stamps, now: int)
    requires StampsOk(p, stamps, now)
    ensures i < |p.used| ==> StampsOk(p.(used := p.used[i := p.used[i].(fpage := x)]), stamps, now + 1)
    ensures i < |p.used| ==> StampsOk(p.(used := p.used[i := p.used[i].(fixed := true)]), stamps, now + 1)
  {
  }

  lemma GetStamps(p: Pool, cap: nat, policy: int, id: Pid, stamps: Stamps, now: int)
    requires StampsOk(p, stamps, now) && StampsOk(FrameTaken(p, cap, policy).1, stamps, now)
    requires !Resident(p, id) ==> !Resident(FrameTaken(p, cap, policy).1, id)
    ensures StampsOk(Get(p, cap, policy, id).1, stamps, now + 1)
  {
    hide StampsOk;
    var i, t := Find(p.used, id), FrameTaken(p, cap, policy).1;
    StampsLater(p, stamps, now);
    if i < |p.used| {
      StampsInPlace(p, i, p.used[i].fpage, stamps, now);
    } else if id in t.disk {
      NotThere(t, id);
      StampsFront(t, stamps, now, BPage(id, false, true, t.disk[id]), stamps);
    } else {
      StampsSame(t, t.(nfree := t.nfree + 1), stamps, now);
    }
  }

  lemma StampsSame(p: Pool, t: Pool, stamps: Stamps, now: int)
    requires StampsOk(p, stamps, now) && t.used == p.used
    ensures StampsOk(t, stamps, now + 1)
  {
  }

  /** Under policy 0 the victim is the unfixed page with the oldest last unfix; else the one
      with the newest. */
  lemma VictimIsOldest(p: Pool, policy: int, stamps: Stamps, now: int)
    requires StampsOk(p, stamps, now) && Victim(p.used, policy) < |p.used|
    ensures var v := Victim(p.used, policy);
            && !p.used[v].fixed
            && forall i | 0 <= i < |p.used| && !p.used[i].fixed && i != v ::
                 if policy == 0 then stamps[p.used[v].id] < stamps[p.used[i].id]
                 else stamps[p.used[i].id] < stamps[p.used[v].id]
  {
  }

  /** At which call of the run each page was last unfixed. */
  ghost function LastUnfix(p: Pool, cap: nat, policy: int, es: seq<Event>): Stamps {
    if es == [] then map[]
    else
      var init := es[..|es| - 1];
      Stamp(After(p, cap, policy, init), LastUnfix(p, cap, policy, init), |init|, es[|es| - 1])
  }

  lemma {:induction false} RunStamps(p: Pool, cap: nat, policy: int, es: seq<Event>)
    requires p.used == [] && PoolOk(p, cap)
    requires forall i | 0 <= i < |es| && es[i].EUnfix? ::
               Disciplined(After(p, cap, policy, es[..i]), es[i].id, es[i].dirty)
    ensures StampsOk(After(p, cap, policy, es), LastUnfix(p, cap, policy, es), |es|)
    ensures PoolOk(After(p, cap, policy, es), cap) && CleanOk(After(p, cap, policy, es))
  {
    if es != [] {
      var init := es[..|es| - 1];
      assert forall i | 0 <= i < |init| :: init[..i] == es[..i] && init[i] == es[i];
      RunStamps(p, cap, policy, init);
      var s: map<Pid, FPage> := p.disk;
      RunRefines(p, cap, policy, s, es);
      StampsKept(After(p, cap, policy, init), cap, policy, es[|es| - 1], LastUnfix(p, cap, policy, init), |init|);
    }
  }

  /** The time of the last unfix is that of the last call that unfixed the page. */
  lemma {:induction false} LastUnfixIs(p: Pool, cap: nat, policy: int, es: seq<Event>, x: Pid)
    ensures var last := LastUnfix(p, cap, policy, es);
            && (x in last ==> 0 <= last[x] < |es| && Unfixes(p, cap, policy, es, last[x], x))
            && forall i | 0 <= i < |es| && Unfixes(p, cap, policy, es, i, x) :: x in last && i <= last[x]
  {
    if es != [] {
      var n := |es| - 1;
      LastUnfixIs(p, cap, policy, es[..n], x);
      forall i | 0 <= i < n
        ensures Unfixes(p, cap, policy, es, i, x) == Unfixes(p, cap, policy, es[..n], i, x)
      {
        assert es[..n][..i] == es[..i];
      }
    }
  }

  /** Call i of the run unfixes page x. */
  ghost predicate Unfixes(p: Pool, cap: nat, policy: int, es: seq<Event>, i: nat, x: Pid)
    requires i < |es|
  {
    es[i].EUnfix? && es[i].id == x && Step(After(p, cap, policy, es[..i]), cap, policy, es[i]).0 == PFE_OK
  }

  /** A page that gives up its frame is the victim, and there was no other frame. */
  lemma FrameFrom(p: Pool, cap: nat, policy: int, x: Pid)
    requires Distinct(p.used) && Resident(p, x) && !Resident(FrameTaken(p, cap, policy).1, x)
    ensures p.nfree == 0 && p.numbpage >= cap
    ensures var v := Victim(p.used, policy); v < |p.used| && p.used[v].id == x
  {
    var v := Victim(p.used, policy);
    if v < |p.used| {
      FindWithout(p.used, v, x);
      WithoutFacts(p.used, v);
    }
  }

  /** Only getting or allocating a page that has no frame takes one from another page. */
  lemma LeavesByFrame(p: Pool, cap: nat, policy: int, e: Event, x: Pid)
    requires Distinct(p.used) && (e.EGet? || e.EAlloc?)
    requires Resident(p, x) && !Resident(Step(p, cap, policy, e).1, x)
    ensures !Resident(p, e.id) && !Resident(FrameTaken(p, cap, policy).1, x)
  {
    hide FrameTaken;
    var i, t := Find(p.used, e.id), FrameTaken(p, cap, policy).1;
    if i < |p.used| {
      FindSet(p.used, i, p.used[i].(fixed := true), x);
    } else if e.EGet? && e.id in t.disk {
      FindFront(BPage(e.id, false, true, t.disk[e.id]), t.used, x);
    } else if e.EAlloc? {
      FindFront(BPage(e.id, false, true, e.fpage), t.used, x);
    }
  }

  /** In every run from an empty pool: a page that PFbufGet or PFbufAlloc takes the frame of is one that
      nobody has fixed, when no frame was free and no more could be had; under policy 0 its last unfix
      is older than that of any other such page, under another policy it is newer. */
  lemma EvictsOldest(p: Pool, cap: nat, policy: int, es: seq<Event>, e: Event, x: Pid)
    requires p.used == [] && PoolOk(p, cap) && (e.EGet? || e.EAlloc?)
    requires forall i | 0 <= i < |es| && es[i].EUnfix? ::
               Disciplined(After(p, cap, policy, es[..i]), es[i].id, es[i].dirty)
    requires var t := After(p, cap, policy, es); Resident(t, x) && !Resident(Step(t, cap, policy, e).1, x)
    ensures var t, last := After(p, cap, policy, es), LastUnfix(p, cap, policy, es);
            && t.nfree == 0 && t.numbpage == cap && !Resident(t, e.id) && !IsFixed(t, x) && x in last
            && forall y | Resident(t, y) && !IsFixed(t, y) && y != x ::
                 y in last && if policy == 0 then last[x] < last[y] else last[y] < last[x]
  {
    hide Step, FrameTaken, Disciplined;
    RunStamps(p, cap, policy, es);
    var t, last := After(p, cap, policy, es), LastUnfix(p, cap, policy, es);
    LeavesByFrame(t, cap, policy, e, x);
    FrameFrom(t, cap, policy, x);
    var v := Victim(t.used, policy);
    VictimIsOldest(t, policy, last, |es|);
    FindAt(t.used, v);
  }

  /** When there is no frame to be had otherwise, getting or allocating a page that has none, without
      an error, takes that of some page; else no page leaves the pool. */
  lemma EvictsIff(p: Pool, cap: nat, policy: int, e: Event)
    requires PoolOk(p, cap) && (e.EGet? || e.EAlloc?) && Step(p, cap, policy, e).0 == PFE_OK
    ensures var u := Step(p, cap, policy, e).1;
            (exists x :: Resident(p, x) && !Resident(u, x)) <==>
            p.nfree == 0 && p.numbpage == cap && !Resident(p, e.id)
  {
    hide FrameTaken, Step;
    var u := Step(p, cap, policy, e).1;
    if x :| Resident(p, x) && !Resident(u, x) {
      LeavesByFrame(p, cap, policy, e, x);
      FrameFrom(p, cap, policy, x);
    }
    if p.nfree == 0 && p.numbpage == cap && !Resident(p, e.id) {
      var x := SomeLeaves(p, cap, policy, e);
    }
  }

  lemma SomeLeaves(p: Pool, cap: nat, policy: int, e: Event) returns (x: Pid)
    requires PoolOk(p, cap) && (e.EGet? || e.EAlloc?) && Step(p, cap, policy, e).0 == PFE_OK
    requires p.nfree == 0 && p.numbpage == cap && !Resident(p, e.id)
    ensures Resident(p, x) && !Resident(Step(p, cap, policy, e).1, x)
  {
    var v, t := Victim(p.used, policy), FrameTaken(p, cap, policy).1;
    x := p.used[v].id;
    FindAt(p.used, v);
    FindWithout(p.used, v, x);
    WithoutFacts(p.used, v);
    if e.EGet? {
      FindFront(BPage(e.id, false, true, t.disk[e.id]), t.used, x);
    } else {
      FindFront(BPage(e.id, false, true, e.fpage), t.used, x);
    }
  }
}
