/** Copy-on-write refines eager copying.

    The reference machine gives every task its own pages as values: fork duplicates them,
    a store changes one page of one task.  The kernel's machine shares frames and counts
    references.  Run shows that the two cannot be told apart, over every sequence of forks,
    loads, stores, execs and exits, and of the kernel taking, mapping and giving back pages
    of its own.
 */
module CopyOnWrite {
  import opened Paging
  import opened MemoryManagement
  import opened TableViews

  // ---------------------------------------------------------------- the reference machine

  /** Page p of task t, counting pages of 4096 bytes from the start of its segment; absent until touched. */
  type Spaces = map<(int, int), Page>

  /** Address spaces, segment limits, and the pages that the kernel has taken for itself. */
  datatype Eager = Eager(spaces: Spaces, limits: map<int, nat>, kernel: set<int>)

  datatype Event =
    | Fork(src: int, dst: int)
    | Load(task: int, page: int, index: int)
    | Store(task: int, page: int, index: int, value: Word)
    | Exec(task: int)
    | Exit(task: int)
    | Hold                                                            // get_free_page for the kernel's own use
    | Map(frame: int, task: int, page: int, contents: Page)           // the page, filled by the kernel, is put into a segment
    | Release(frame: int)                                             // free_page

  /** What an event comes to: whether memory sufficed, the page that the kernel got, the value loaded. */
  datatype Answer = Answer(ok: bool, frame: int, value: Word)

  /** Requests the rest of the kernel can make: live tasks, addresses inside the segment, an unused slot to fork into, a
      page of its own to map or give back. */
  predicate Legal(limits: map<int, nat>, kernel: set<int>, ev: Event) {
    match ev
    case Fork(src, dst) => 0 <= src && src in limits && 1 <= dst < 64 && dst !in limits
    case Load(t, p, i) => t != 0 && t in limits && 0 <= p && p * 4096 < limits[t] && 0 <= i < ENTRIES
    case Store(t, p, i, _) => t != 0 && t in limits && 0 <= p && p * 4096 < limits[t] && 0 <= i < ENTRIES
    case Exec(t) => t != 0 && t in limits
    case Exit(t) => t != 0 && t in limits
    case Hold => true
    case Map(f, t, p, contents) => f in kernel && t != 0 && t in limits && 0 <= p && p * 4096 < limits[t] && |contents| == ENTRIES
    case Release(f) => f in kernel
  }

  /** Every page of task src is duplicated for task dst. */
  ghost function Duplicate(a: Spaces, src: int, dst: int): Spaces {
    a + map k | k in a && k.0 == src :: (dst, k.1) := a[k]
  }

  ghost function Vacate(a: Spaces, t: int): Spaces {
    map k | k in a && k.0 != t :: a[k]
  }

  ghost function EagerExit(w: Eager, t: int): Eager {
    w.(spaces := Vacate(w.spaces, t), limits := w.limits - {t})
  }

  /** One event.  Without memory a fork is refused and a faulting task dies.  A fork takes a page for the task structure. */
  ghost function EagerStep(w: Eager, ev: Event, a: Answer): Eager {
    if !Legal(w.limits, w.kernel, ev) then w else
    match ev
    case Fork(src, dst) =>
      if !a.ok then w else
      Eager(Duplicate(w.spaces, src, dst), w.limits[dst := w.limits[src]], w.kernel + {a.frame})
    case Load(t, p, i) =>
      if a.ok then w.(spaces := Touched(w.spaces, (t, p))) else EagerExit(w, t)
    case Store(t, p, i, v) =>
      if a.ok then w.(spaces := WithWord(w.spaces, (t, p), i, v)) else EagerExit(w, t)
    case Exec(t) => w.(spaces := EagerExit(w, t).spaces, limits := w.limits[t := SLOT])
    case Exit(t) => EagerExit(w, t)
    case Hold => if a.ok then w.(kernel := w.kernel + {a.frame}) else w
    case Map(f, t, p, contents) =>
      if a.ok && (t, p) !in w.spaces then w.(spaces := w.spaces[(t, p) := contents], kernel := w.kernel - {f}) else w
    case Release(f) => w.(kernel := w.kernel - {f})
  }

  /** What a load delivers; and the kernel never gets a page that it already has. */
  ghost predicate EagerAnswer(w: Eager, ev: Event, a: Answer) {
    Legal(w.limits, w.kernel, ev) ==>
      && (ev.Load? && a.ok ==> a.value == WordIn(w.spaces, (ev.task, ev.page), ev.index))
      && ((ev.Fork? || ev.Hold?) && a.ok ==> a.frame !in w.kernel)
  }

  ghost function EagerRun(w: Eager, evs: seq<Event>, outs: seq<Answer>): Eager
    requires |outs| == |evs|
  {
    if evs == [] then w else
      EagerStep(EagerRun(w, evs[..|evs| - 1], outs[..|evs| - 1]), evs[|evs| - 1], outs[|evs| - 1])
  }

  /** Event k was answered as the reference says. */
  ghost predicate Answered(w: Eager, evs: seq<Event>, outs: seq<Answer>, k: nat)
    requires k < |evs| == |outs|
  {
    EagerAnswer(EagerRun(w, evs[..k], outs[..k]), evs[k], outs[k])
  }

  lemma RunGrows(w: Eager, evs: seq<Event>, outs: seq<Answer>, ev: Event, a: Answer, evs': seq<Event>, outs': seq<Answer>)
    requires |outs| == |evs| && evs' == evs + [ev] && outs' == outs + [a] && EagerAnswer(EagerRun(w, evs, outs), ev, a)
    requires forall k :: 0 <= k < |evs| ==> Answered(w, evs, outs, k)
    ensures EagerRun(w, evs', outs') == EagerStep(EagerRun(w, evs, outs), ev, a)
    ensures forall k :: 0 <= k < |evs'| ==> Answered(w, evs', outs', k)
  {
    assert evs'[..|evs|] == evs && outs'[..|evs|] == outs;
    forall k | 0 <= k < |evs|
      ensures Answered(w, evs', outs', k)
    {
      assert Answered(w, evs, outs, k);
      assert evs'[..k] == evs[..k] && outs'[..k] == outs[..k];
    }
  }

  // ---------------------------------------------------------------- laws of the reference

  /** fork: the child has every page of its parent, and every page that existed is as before. */
  lemma ForkLaw(w: Eager, src: int, dst: int, a: Answer)
    requires Legal(w.limits, w.kernel, Fork(src, dst)) && a.ok && forall p :: (dst, p) !in w.spaces
    ensures var w' := EagerStep(w, Fork(src, dst), a);
      && (forall p :: (dst, p) in w'.spaces <==> (src, p) in w.spaces)
      && (forall p :: (src, p) in w.spaces ==> w'.spaces[(dst, p)] == w.spaces[(src, p)])
      && (forall k: (int, int) :: k.0 != dst ==> (k in w'.spaces <==> k in w.spaces) && (k in w.spaces ==> w'.spaces[k] == w.spaces[k]))
      && dst in w'.limits && w'.limits[dst] == w.limits[src] && a.frame in w'.kernel
  {
  }

  /** A store changes one word of one page of one task; what was not there reads as zero. */
  lemma StoreLaw(w: Eager, t: int, p: int, i: int, v: Word, a: Answer)
    requires Legal(w.limits, w.kernel, Store(t, p, i, v)) && a.ok && forall k :: k in w.spaces ==> |w.spaces[k]| == 1024
    ensures var w' := EagerStep(w, Store(t, p, i, v), a);
      && (t, p) in w'.spaces && |w'.spaces[(t, p)]| == 1024 && w'.spaces[(t, p)][i] == v
      && (forall j :: 0 <= j < 1024 && j != i ==> w'.spaces[(t, p)][j] == if (t, p) in w.spaces then w.spaces[(t, p)][j] else 0)
      && (forall k :: k != (t, p) ==> (k in w'.spaces <==> k in w.spaces) && (k in w.spaces ==> w'.spaces[k] == w.spaces[k]))
      && w'.limits == w.limits && w'.kernel == w.kernel
  {
  }

  /** A load delivers the word that is there, zero if there is none yet, and changes no word of any task. */
  lemma LoadLaw(w: Eager, t: int, p: int, i: int, a: Answer)
    requires Legal(w.limits, w.kernel, Load(t, p, i)) && a.ok && EagerAnswer(w, Load(t, p, i), a)
    requires forall k :: k in w.spaces ==> |w.spaces[k]| == 1024
    ensures a.value == if (t, p) in w.spaces then w.spaces[(t, p)][i] else 0
    ensures var w' := EagerStep(w, Load(t, p, i), a);
      && (t, p) in w'.spaces && ((t, p) !in w.spaces ==> forall j :: 0 <= j < |w'.spaces[(t, p)]| ==> w'.spaces[(t, p)][j] == 0)
      && (forall k :: k in w.spaces ==> k in w'.spaces && w'.spaces[k] == w.spaces[k])
      && (forall k :: k in w'.spaces && k !in w.spaces ==> k == (t, p)) && w'.limits == w.limits && w'.kernel == w.kernel
  {
  }

  /** exit takes the task's pages and no others. */
  lemma ExitLaw(w: Eager, t: int, a: Answer)
    requires Legal(w.limits, w.kernel, Exit(t))
    ensures var w' := EagerStep(w, Exit(t), a);
      && (forall k :: k in w'.spaces <==> k in w.spaces && k.0 != t) && (forall k :: k in w'.spaces ==> w'.spaces[k] == w.spaces[k])
      && t !in w'.limits && w'.kernel == w.kernel && forall u :: u != t ==> (u in w'.limits <==> u in w.limits)
  {
  }

  /** What the kernel maps appears at one place, with its contents. */
  lemma MapLaw(w: Eager, f: int, t: int, p: int, contents: Page, a: Answer)
    requires Legal(w.limits, w.kernel, Map(f, t, p, contents)) && a.ok && (t, p) !in w.spaces
    ensures var w' := EagerStep(w, Map(f, t, p, contents), a);
      && (t, p) in w'.spaces && w'.spaces[(t, p)] == contents && f !in w'.kernel
      && (forall k :: k != (t, p) ==> (k in w'.spaces <==> k in w.spaces) && (k in w.spaces ==> w'.spaces[k] == w.spaces[k]))
  {
  }

  /** exec leaves the task an empty segment of full size; nobody else notices. */
  lemma ExecLaw(w: Eager, t: int, a: Answer)
    requires Legal(w.limits, w.kernel, Exec(t))
    ensures var w' := EagerStep(w, Exec(t), a);
      && (forall k :: k in w'.spaces <==> k in w.spaces && k.0 != t) && (forall k :: k in w'.spaces ==> w'.spaces[k] == w.spaces[k])
      && w'.limits == w.limits[t := 0x400_0000] && w'.kernel == w.kernel
  {
  }

  /** The kernel's own pages: taken, or given back, one at a time and unseen. */
  lemma KernelLaw(w: Eager, f: int, a: Answer)
    ensures a.ok ==> EagerStep(w, Hold, a) == w.(kernel := w.kernel + {a.frame})
    ensures !a.ok ==> EagerStep(w, Hold, a) == w
    ensures f in w.kernel ==> EagerStep(w, Release(f), a) == w.(kernel := w.kernel - {f})
  {
  }

  /** A refused fork changes nothing; a task whose fault finds no memory dies. */
  lemma NoMemoryLaw(w: Eager, ev: Event, a: Answer)
    requires Legal(w.limits, w.kernel, ev) && !a.ok
    ensures ev.Fork? ==> EagerStep(w, ev, a) == w
    ensures ev.Load? || ev.Store? ==> EagerStep(w, ev, a) == EagerStep(w, Exit(ev.task), a)
  {
  }

  // ---------------------------------------------------------------- the abstraction

  /** The pages a segment can have; of task 0 only the first 640 kB are looked at. */
  predicate Place(t: int, p: int) { 0 <= t < 64 && 0 <= p < 16384 && (t == 0 ==> p < 160) }

  /** Page p of task t, by the tables. */
  function PageOf(m: Mem, t: int, p: int): Option<Page>
    requires Shape(m) && Place(t, p)
  {
    Look(m, 16 * t + p / 1024, p % 1024)
  }

  /** The tables are indexed by the linear address: the top ten bits, then the next ten (section 5.2 of the Intel 80386
      Programmer's Reference Manual). */
  lemma PageAtAddress(m: Mem, t: int, p: int)
    requires Shape(m) && Place(t, p)
    ensures var address := t * 0x400_0000 + p * 4096;
      0 <= address / 0x40_0000 < 1024 && PageOf(m, t, p) == Look(m, address / 0x40_0000, address / 4096 % 1024)
  {
    var q, r := p / 1024, p % 1024;
    var address := t * 0x400_0000 + p * 4096;
    assert address == 0x40_0000 * (16 * t + q) + 4096 * r;
    assert address / 4096 == 1024 * (16 * t + q) + r;
  }

  ghost function Abs(m: Mem): Spaces
    requires Shape(m)
  {
    map t: int, p: int | 0 <= t < 64 && 0 <= p < 16384 && Place(t, p) && PageOf(m, t, p).Some? :: (t, p) := PageOf(m, t, p).value
  }

  /** Segments are at most 64 Mb, task 0's is 640 kB, and page tables exist only inside live segments. */
  ghost predicate LimitsOk(m: Mem, limits: map<int, nat>)
    requires Shape(m)
  {
    && (forall t :: t in limits ==> 0 <= t < 64 && 0 < limits[t] <= if t == 0 then 0xA_0000 else SLOT)
    && (forall d :: IsUser(d) && Present(m.dir[d]) ==>
          d / SLOT_DIRS in limits && d % SLOT_DIRS < Dirs(limits[d / SLOT_DIRS]))
  }

  /** So do pages. */
  ghost predicate PagesOk(a: Spaces, limits: map<int, nat>) {
    forall k :: k in a ==> k.0 in limits && k.1 * 4096 < limits[k.0]
  }

  function Key(t: int, p: int): (int, int) { (16 * t + p / 1024, p % 1024) }

  lemma KeyInjective(t: int, p: int, u: int, r: int)
    requires Place(t, p) && Place(u, r) && Key(t, p) == Key(u, r)
    ensures t == u && p == r
  {
  }

  lemma AbsEntry(m: Mem, t: int, p: int)
    requires Shape(m) && Place(t, p)
    ensures Visible(Key(t, p).0, Key(t, p).1) && 0 <= Key(t, p).0 < 1024
    ensures (t, p) in Abs(m) <==> Key(t, p) in Entries(m)
    ensures (t, p) in Abs(m) ==> Abs(m)[(t, p)] == Entries(m)[Key(t, p)]
    ensures (t, p) in Abs(m) <==> Look(m, 16 * t + p / 1024, p % 1024).Some?
    ensures (t, p) in Abs(m) ==> Abs(m)[(t, p)] == Look(m, 16 * t + p / 1024, p % 1024).value
  {
    KeyVisible(t, p);
  }

  lemma KeyVisible(t: int, p: int)
    requires Place(t, p)
    ensures Visible(Key(t, p).0, Key(t, p).1) && 0 <= Key(t, p).0 < 1024 && 0 <= Key(t, p).1 < 1024
  {
  }

  lemma AbsPages(m: Mem)
    requires Shape(m)
    ensures forall k :: k in Abs(m) ==> Place(k.0, k.1) && |Abs(m)[k]| == 1024
  {
  }

  /** Two stores show the same at a place when their entries agree there. */
  lemma AbsAt(m: Mem, m': Mem, t: int, p: int)
    requires Shape(m) && Shape(m') && Place(t, p)
    requires Key(t, p) in Entries(m') <==> Key(t, p) in Entries(m)
    requires Key(t, p) in Entries(m) ==> Entries(m')[Key(t, p)] == Entries(m)[Key(t, p)]
    ensures (t, p) in Abs(m') <==> (t, p) in Abs(m)
    ensures (t, p) in Abs(m) ==> Abs(m')[(t, p)] == Abs(m)[(t, p)]
  {
    AbsEntry(m, t, p);
    AbsEntry(m', t, p);
  }

  lemma AbsSame(m: Mem, m': Mem)
    requires Shape(m) && Shape(m') && Entries(m') == Entries(m)
    ensures Abs(m') == Abs(m)
  {
    forall t: int, p: int | Place(t, p)
      ensures (t, p) in Abs(m') <==> (t, p) in Abs(m)
      ensures (t, p) in Abs(m) ==> Abs(m')[(t, p)] == Abs(m)[(t, p)]
    {
      AbsAt(m, m', t, p);
    }
    AbsPages(m);
    AbsPages(m');
  }

  /** One entry set is one page set. */
  lemma AbsUpdate(m: Mem, m': Mem, t: int, p: int, page: Page)
    requires Shape(m) && Shape(m') && Place(t, p) && Entries(m') == Entries(m)[Key(t, p) := page]
    ensures Abs(m') == Abs(m)[(t, p) := page]
  {
    var b := Abs(m)[(t, p) := page];
    forall u: int, r: int | Place(u, r)
      ensures (u, r) in Abs(m') <==> (u, r) in b
      ensures (u, r) in b ==> Abs(m')[(u, r)] == b[(u, r)]
    {
      AbsEntry(m', u, r);
      if u != t || r != p {
        if Key(u, r) == Key(t, p) {
          KeyInjective(u, r, t, p);
        }
        AbsAt(m, m', u, r);
      }
    }
    AbsPages(m);
    AbsPages(m');
  }

  lemma AbsTouch(m: Mem, m': Mem, t: int, p: int)
    requires Shape(m) && Shape(m') && Place(t, p) && Entries(m') == Touched(Entries(m), Key(t, p))
    ensures Abs(m') == Touched(Abs(m), (t, p))
  {
    AbsEntry(m, t, p);
    if Key(t, p) in Entries(m) {
      AbsSame(m, m');
    } else {
      AbsUpdate(m, m', t, p, ZeroPage());
    }
  }

  lemma AbsWrite(m: Mem, m': Mem, t: int, p: int, i: int, v: Word)
    requires Shape(m) && Shape(m') && Place(t, p) && 0 <= i < 1024 && Entries(m') == WithWord(Entries(m), Key(t, p), i, v)
    ensures Abs(m') == WithWord(Abs(m), (t, p), i, v)
  {
    AbsEntry(m, t, p);
    AbsPages(m);
    var page := if (t, p) in Abs(m) then Abs(m)[(t, p)] else ZeroPage();
    WithWordIs(Entries(m), Key(t, p), page, i, v);
    WithWordIs(Abs(m), (t, p), page, i, v);
    AbsUpdate(m, m', t, p, Put(page, i, v));
  }

  /** Copying tables up to the segment limit gives the child each page of its parent and leaves every other page. */
  lemma ForkedPage(m: Mem, m': Mem, src: nat, dst: nat, limit: nat, t: int, p: int)
    requires Shape(m) && Shape(m') && src < 64 && dst < 64 && Place(t, p) && 0 < limit <= if src == 0 then 0xA_0000 else SLOT
    requires DirArgs(m, src * 16, dst * 16, Dirs(limit), Span(src * SLOT)) && Copied(m, m', src * 16, dst * 16, Dirs(limit), Span(src * SLOT))
    ensures t == dst && p * 4096 < limit ==> Place(src, p) && PageOf(m', t, p) == PageOf(m, src, p)
    ensures t == dst && p * 4096 >= limit ==> PageOf(m', t, p) == PageOf(m, t, p) || (Place(src, p) && PageOf(m', t, p) == PageOf(m, src, p))
    ensures t != dst ==> PageOf(m', t, p) == PageOf(m, t, p)
  {
    var q, e := p / 1024, p % 1024;
    assert Visible(16 * t + q, e);
    assert Look(m', 16 * t + q, e) == Look(m', 16 * t + q, e);
    if p * 4096 < limit {
      assert q * 0x40_0000 <= p * 4096 && q < Dirs(limit);
    }
  }

  lemma AbsFork(m: Mem, m': Mem, src: nat, dst: nat, limit: nat)
    requires Shape(m) && Shape(m') && src < 64 && dst < 64 && 0 < limit <= if src == 0 then 0xA_0000 else SLOT
    requires DirArgs(m, src * 16, dst * 16, Dirs(limit), Span(src * SLOT)) && Copied(m, m', src * 16, dst * 16, Dirs(limit), Span(src * SLOT))
    requires forall p :: (src, p) in Abs(m) ==> p * 4096 < limit
    requires forall p :: (dst, p) !in Abs(m)
    ensures Abs(m') == Duplicate(Abs(m), src, dst)
  {
    var b := Duplicate(Abs(m), src, dst);
    AbsPages(m);
    forall t: int, p: int | Place(t, p)
      ensures (t, p) in Abs(m') <==> (t, p) in b
      ensures (t, p) in b ==> Abs(m')[(t, p)] == b[(t, p)]
    {
      ForkedPage(m, m', src, dst, limit, t, p);
      assert (dst, p) !in Abs(m);
      if Place(src, p) {
        assert (src, p) in Abs(m) <==> PageOf(m, src, p).Some?;
      }
    }
  }

  /** Freeing the tables of a segment takes all pages of its task. */
  lemma AbsFree(m: Mem, m': Mem, t: int, limit: nat)
    requires Shape(m) && Shape(m') && 1 <= t < 64 && limit <= SLOT
    requires Entries(m') == FreeRange(Entries(m), t * SLOT_DIRS, Dirs(limit))
    requires forall p :: (t, p) in Abs(m) ==> p * 4096 < limit
    ensures Abs(m') == Vacate(Abs(m), t)
  {
    var b := Vacate(Abs(m), t);
    forall u: int, p: int | Place(u, p)
      ensures (u, p) in Abs(m') <==> (u, p) in b
      ensures (u, p) in b ==> Abs(m')[(u, p)] == b[(u, p)]
    {
      AbsEntry(m, u, p);
      AbsEntry(m', u, p);
      FreedKey(u, p, t, limit);
    }
    AbsPages(m);
    AbsPages(m');
  }

  lemma FreedKey(u: int, p: int, t: int, limit: nat)
    requires Place(u, p) && 1 <= t < 64 && limit <= SLOT
    ensures u != t ==> !(t * SLOT_DIRS <= Key(u, p).0 < t * SLOT_DIRS + Dirs(limit))
    ensures u == t && p * 4096 < limit ==> t * SLOT_DIRS <= Key(u, p).0 < t * SLOT_DIRS + Dirs(limit)
  {
    if p * 4096 < limit {
      assert p / 1024 * 0x40_0000 <= p * 4096;
    }
  }

  // ---------------------------------------------------------------- accesses, by task and page

  /** Only the directory entry of page p of task t may have changed. */
  ghost predicate OneTable(m: Mem, m': Mem, t: int, p: int)
    requires Shape(m) && Shape(m') && Place(t, p)
  {
    forall d :: 0 <= d < ENTRIES && d != Key(t, p).0 ==> m'.dir[d] == m.dir[d]
  }

  method TaskLoad(mm: MemoryManager, t: int, p: int, i: int) returns (ok: bool, v: Word)
    requires mm.Valid() && 1 <= t && Place(t, p) && 0 <= i < ENTRIES
    modifies mm, mm.memMap, mm.pgDir, mm.phys
    ensures mm.Valid() && old(mm.held) <= mm.held && OneTable(old(mm.State()), mm.State(), t, p)
    ensures ok ==> Abs(mm.State()) == Touched(old(Abs(mm.State())), (t, p)) && v == WordIn(old(Abs(mm.State())), (t, p), i)
    ensures !ok ==> Abs(mm.State()) == old(Abs(mm.State())) && |FreeSet(old(mm.State()))| < 2
  {
    ghost var m := mm.State();
    AbsEntry(m, t, p);
    ok, v := UserLoad(mm, Key(t, p).0, Key(t, p).1, i);
    if ok {
      AbsTouch(m, mm.State(), t, p);
    } else {
      AbsSame(m, mm.State());
    }
  }

  method TaskStore(mm: MemoryManager, t: int, p: int, i: int, v: Word) returns (ok: bool)
    requires mm.Valid() && 1 <= t && Place(t, p) && 0 <= i < ENTRIES
    modifies mm, mm.memMap, mm.pgDir, mm.phys
    ensures mm.Valid() && old(mm.held) <= mm.held && OneTable(old(mm.State()), mm.State(), t, p)
    ensures ok ==> Abs(mm.State()) == WithWord(old(Abs(mm.State())), (t, p), i, v)
    ensures !ok ==> Abs(mm.State()) == old(Abs(mm.State())) || Abs(mm.State()) == Touched(old(Abs(mm.State())), (t, p))
    ensures !ok ==> |FreeSet(old(mm.State()))| < 2
  {
    ghost var m := mm.State();
    AbsEntry(m, t, p);
    ok := UserStore(mm, Key(t, p).0, Key(t, p).1, i, v);
    if ok {
      AbsWrite(m, mm.State(), t, p, i, v);
    } else if Entries(mm.State()) == Entries(m) {
      AbsSame(m, mm.State());
    } else {
      AbsTouch(m, mm.State(), t, p);
    }
  }

  method TaskFree(mm: MemoryManager, t: int, limit: nat)
    requires mm.Valid() && 1 <= t < 64 && limit <= SLOT && forall p :: (t, p) in Abs(mm.State()) ==> p * 4096 < limit
    modifies mm.memMap, mm.pgDir, mm.phys
    ensures mm.Valid() && Abs(mm.State()) == Vacate(old(Abs(mm.State())), t)
    ensures forall d :: 0 <= d < ENTRIES && !(t * SLOT_DIRS <= d < t * SLOT_DIRS + Dirs(limit)) ==> mm.State().dir[d] == old(mm.State()).dir[d]
    ensures forall d :: t * SLOT_DIRS <= d < t * SLOT_DIRS + Dirs(limit) ==> !Present(mm.State().dir[d])
  {
    ghost var m := mm.State();
    ReleaseSpace(mm, t, limit);
    AbsFree(m, mm.State(), t, limit);
  }

  /** `mapped` when there is a page already, and then nothing is done. */
  method TaskMap(mm: MemoryManager, f: int, t: int, p: int, contents: Page) returns (mapped: bool, ok: bool)
    requires mm.Valid() && f in mm.held && 1 <= t && Place(t, p) && |contents| == ENTRIES
    modifies mm, mm.memMap, mm.pgDir, mm.phys
    ensures mm.Valid() && (mapped <==> (t, p) in old(Abs(mm.State()))) && (mapped ==> mm.State() == old(mm.State()) && mm.held == old(mm.held) && !ok)
    ensures !mapped ==> OneTable(old(mm.State()), mm.State(), t, p) && mm.held == if ok then old(mm.held) - {f} else old(mm.held)
    ensures !mapped ==> Abs(mm.State()) == if ok then old(Abs(mm.State()))[(t, p) := contents] else old(Abs(mm.State()))
    ensures !mapped && !ok ==> FreeSet(old(mm.State())) == {}
  {
    ghost var m := mm.State();
    AbsEntry(m, t, p);
    mapped := Mapped(mm, Key(t, p).0, Key(t, p).1);
    ok := false;
    if !mapped {
      ok := FillAndPut(mm, f, Key(t, p).0, Key(t, p).1, contents);
      if ok {
        AbsUpdate(m, mm.State(), t, p, contents);
      } else {
        AbsSame(m, mm.State());
      }
    }
  }

  method Mapped(mm: MemoryManager, d: int, e: int) returns (mapped: bool)
    requires mm.Valid() && IsUser(d) && 0 <= e < ENTRIES
    ensures mapped <==> Present(Pte(mm.State(), d, e))
    ensures mapped <==> (d, e) in Entries(mm.State())
  {
    ghost var m := mm.State();
    EntryOf(m, d, e);
    var w: Word := if Present(mm.pgDir[d]) then mm.phys[FrameOf(mm.pgDir[d])][e] else 0;
    assert w == Pte(m, d, e);
    mapped := Present(w);
    assert mapped ==> Maps(m, d, e, FrameOf(w));
  }

  // ---------------------------------------------------------------- one event

  /** `limits` are the live segments and `kernel` the pages that parts of the kernel know to be theirs. */
  ghost predicate Ready(mm: MemoryManager, limits: map<int, nat>, kernel: set<int>)
    reads mm, mm.memMap, mm.pgDir, mm.phys
  {
    mm.Valid() && LimitsOk(mm.State(), limits) && PagesOk(Abs(mm.State()), limits) && kernel <= mm.held
  }

  /** The reference state that the machine shows. */
  ghost function Shown(mm: MemoryManager, limits: map<int, nat>, kernel: set<int>): Eager
    requires mm.Valid()
    reads mm, mm.memMap, mm.pgDir, mm.phys
  {
    Eager(Abs(mm.State()), limits, kernel)
  }

  /** No event puts a page beyond the limit of its segment. */
  lemma PagesStep(w: Eager, ev: Event, a: Answer)
    requires PagesOk(w.spaces, w.limits)
    ensures PagesOk(EagerStep(w, ev, a).spaces, EagerStep(w, ev, a).limits)
  {
  }

  lemma PageInSegment(t: int, p: int, limit: nat)
    requires 1 <= t < 64 && 0 <= p && p * 4096 < limit <= SLOT
    ensures Place(t, p) && IsUser(16 * t + p / 1024)
    ensures (16 * t + p / 1024) / 16 == t && (16 * t + p / 1024) % 16 == p / 1024 < Dirs(limit)
  {
    var q := p / 1024;
    assert q * 0x40_0000 <= p * 4096;
    assert q < Dirs(limit) <= 16;
  }

  lemma TouchedIsVacated(a: Spaces, t: int, p: int)
    ensures Vacate(Touched(a, (t, p)), t) == Vacate(a, t)
  {
  }

  /** The directory entries of segment (t, limit) are all there is to task t. */
  lemma LimitsAfterExit(m: Mem, m': Mem, limits: map<int, nat>, t: int)
    requires Shape(m) && Shape(m') && LimitsOk(m, limits) && t in limits && 1 <= t
    requires forall d :: t * SLOT_DIRS <= d < t * SLOT_DIRS + Dirs(limits[t]) ==> 0 <= d < ENTRIES && !Present(m'.dir[d])
    requires forall d :: 0 <= d < ENTRIES && !(t * SLOT_DIRS <= d < t * SLOT_DIRS + Dirs(limits[t])) ==> m'.dir[d] == m.dir[d]
    ensures LimitsOk(m', limits - {t})
    ensures LimitsOk(m', limits[t := SLOT])
  {
    forall d | IsUser(d) && Present(m'.dir[d])
      ensures d / SLOT_DIRS in limits - {t} && d % SLOT_DIRS < Dirs(limits[d / SLOT_DIRS])
    {
      assert m'.dir[d] == m.dir[d];
    }
  }

  lemma LimitsAfterAccess(m: Mem, m': Mem, limits: map<int, nat>, t: int, p: int)
    requires Shape(m) && Shape(m') && LimitsOk(m, limits) && t in limits && 1 <= t && 0 <= p && p * 4096 < limits[t]
    requires Place(t, p) && OneTable(m, m', t, p)
    ensures LimitsOk(m', limits)
  {
    PageInSegment(t, p, limits[t]);
  }

  /** At boot only task 0 exists, with its 640 kB segment. */
  method Boot(low: seq<Page>) returns (mm: MemoryManager, limits: map<int, nat>)
    requires |low| == LOW && forall f :: 0 <= f < LOW ==> |low[f]| == ENTRIES
    ensures fresh(mm) && fresh(mm.memMap) && fresh(mm.pgDir) && fresh(mm.phys)
    ensures Ready(mm, limits, {}) && limits == map[0 := 0xA_0000]
  {
    mm := new MemoryManager(low);
    limits := map[0 := 0xA_0000];
  }

  /** The page effects of copy_process. */
  method ForkEvent(mm: MemoryManager, limits: map<int, nat>, ghost kernel: set<int>, src: int, dst: int) returns (a: Answer, limits': map<int, nat>)
    requires Ready(mm, limits, kernel) && Legal(limits, kernel, Fork(src, dst))
    modifies mm, mm.memMap, mm.pgDir, mm.phys
    ensures Ready(mm, limits', kernel + if a.ok then {a.frame} else {}) && (a.ok ==> a.frame !in kernel)
    ensures Eager(Abs(mm.State()), limits', kernel + if a.ok then {a.frame} else {}) == EagerStep(old(Shown(mm, limits, kernel)), Fork(src, dst), a)
    ensures !a.ok ==> mm.memMap[..] == old(mm.memMap[..]) && mm.held == old(mm.held)
    ensures a.ok <==> Tables(old(mm.State()), src * SLOT_DIRS, Dirs(limits[src])) < |FreeSet(old(mm.State()))|
  {
    ghost var m := mm.State();
    ForkArgs(m, limits, src, dst);
    var p := mm.CopyProcess(dst, src * SLOT, limits[src]);
    a := Answer(p != 0, p, 0);
    if p != 0 {
      limits' := limits[dst := limits[src]];
      AbsFork(m, mm.State(), src, dst, limits[src]);
      LimitsAfterFork(m, mm.State(), limits, src, dst);
    } else {
      limits' := limits;
      SameViews(m, mm.State());
      AbsSame(m, mm.State());
    }
    PagesStep(old(Shown(mm, limits, kernel)), Fork(src, dst), a);
  }

  lemma ForkArgs(m: Mem, limits: map<int, nat>, src: int, dst: int)
    requires Shape(m) && LimitsOk(m, limits) && Legal(limits, {}, Fork(src, dst))
    ensures CopyArgs(m, src * SLOT, dst * SLOT, limits[src])
    ensures src * SLOT / 0x40_0000 == src * SLOT_DIRS && dst * SLOT / 0x40_0000 == dst * SLOT_DIRS
    ensures DirArgs(m, src * SLOT_DIRS, dst * SLOT_DIRS, Dirs(limits[src]), Span(src * SLOT))
  {
    var n := Dirs(limits[src]);
    assert n <= SLOT_DIRS && (src == 0 ==> n <= 1);
    forall d | dst * SLOT_DIRS <= d < dst * SLOT_DIRS + n
      ensures 0 <= d < ENTRIES && !Present(m.dir[d])
    {
      assert d / SLOT_DIRS == dst;
    }
    assert src < dst || dst < src;
    assert (src * SLOT_DIRS) % SLOT_DIRS == 0 == (dst * SLOT_DIRS) % SLOT_DIRS;
  }

  lemma LimitsAfterFork(m: Mem, m': Mem, limits: map<int, nat>, src: int, dst: int)
    requires Shape(m) && Shape(m') && LimitsOk(m, limits) && Legal(limits, {}, Fork(src, dst))
    requires Kept(m, m', dst * SLOT_DIRS, Dirs(limits[src]))
    ensures LimitsOk(m', limits[dst := limits[src]])
  {
    forall d | IsUser(d) && Present(m'.dir[d])
      ensures d / SLOT_DIRS in limits[dst := limits[src]] && d % SLOT_DIRS < Dirs(limits[dst := limits[src]][d / SLOT_DIRS])
    {
      if dst * SLOT_DIRS <= d < dst * SLOT_DIRS + Dirs(limits[src]) {
        assert Dirs(limits[src]) <= SLOT_DIRS;
        assert d / SLOT_DIRS == dst && d % SLOT_DIRS == d - dst * SLOT_DIRS;
      } else {
        assert m'.dir[d] == m.dir[d];
      }
    }
  }

  method ExitEvent(mm: MemoryManager, limits: map<int, nat>, ghost kernel: set<int>, t: int) returns (limits': map<int, nat>)
    requires Ready(mm, limits, kernel) && t in limits && t != 0
    modifies mm.memMap, mm.pgDir, mm.phys
    ensures Ready(mm, limits', kernel) && Ready(mm, limits[t := SLOT], kernel)
    ensures Shown(mm, limits', kernel) == EagerExit(old(Shown(mm, limits, kernel)), t)
  {
    ghost var m := mm.State();
    TaskFree(mm, t, limits[t]);
    LimitsAfterExit(m, mm.State(), limits, t);
    limits' := limits - {t};
  }

  method LoadEvent(mm: MemoryManager, limits: map<int, nat>, ghost kernel: set<int>, ev: Event) returns (a: Answer, limits': map<int, nat>)
    requires Ready(mm, limits, kernel) && ev.Load? && Legal(limits, kernel, ev)
    modifies mm, mm.memMap, mm.pgDir, mm.phys
    ensures Ready(mm, limits', kernel) && EagerAnswer(old(Shown(mm, limits, kernel)), ev, a)
    ensures Shown(mm, limits', kernel) == EagerStep(old(Shown(mm, limits, kernel)), ev, a)
    ensures !a.ok ==> |FreeSet(old(mm.State()))| < 2
  {
    ghost var m := mm.State();
    var Load(t, p, i) := ev;
    PageInSegment(t, p, limits[t]);
    var ok, v := TaskLoad(mm, t, p, i);
    a := Answer(ok, 0, v);
    LimitsAfterAccess(m, mm.State(), limits, t, p);
    limits' := limits;
    if !ok {
      limits' := ExitEvent(mm, limits, kernel, t);
    }
    PagesStep(old(Shown(mm, limits, kernel)), ev, a);
  }

  method StoreEvent(mm: MemoryManager, limits: map<int, nat>, ghost kernel: set<int>, ev: Event) returns (a: Answer, limits': map<int, nat>)
    requires Ready(mm, limits, kernel) && ev.Store? && Legal(limits, kernel, ev)
    modifies mm, mm.memMap, mm.pgDir, mm.phys
    ensures Ready(mm, limits', kernel)
    ensures Shown(mm, limits', kernel) == EagerStep(old(Shown(mm, limits, kernel)), ev, a)
    ensures !a.ok ==> |FreeSet(old(mm.State()))| < 2
  {
    ghost var m := mm.State();
    var Store(t, p, i, v) := ev;
    PageInSegment(t, p, limits[t]);
    var ok := TaskStore(mm, t, p, i, v);
    a := Answer(ok, 0, 0);
    LimitsAfterAccess(m, mm.State(), limits, t, p);
    limits' := limits;
    if !ok {
      TouchedIsVacated(Abs(m), t, p);
      limits' := ExitEvent(mm, limits, kernel, t);
    }
    PagesStep(old(Shown(mm, limits, kernel)), ev, a);
  }

  /** The kernel takes a page for itself. */
  method HoldEvent(mm: MemoryManager, limits: map<int, nat>, kernel: set<int>) returns (a: Answer, kernel': set<int>)
    requires Ready(mm, limits, kernel)
    modifies mm, mm.memMap, mm.phys
    ensures Ready(mm, limits, kernel') && EagerAnswer(old(Shown(mm, limits, kernel)), Hold, a)
    ensures Shown(mm, limits, kernel') == EagerStep(old(Shown(mm, limits, kernel)), Hold, a)
    ensures a.ok <==> FreeSet(old(mm.State())) != {}
  {
    ghost var m := mm.State();
    var p := mm.TaskPage();
    SameViews(m, mm.State());
    AbsSame(m, mm.State());
    a := Answer(p != 0, p, 0);
    kernel' := if p != 0 then kernel + {p} else kernel;
  }

  /** The kernel gives one back. */
  method ReleaseEvent(mm: MemoryManager, limits: map<int, nat>, kernel: set<int>, f: int) returns (kernel': set<int>)
    requires Ready(mm, limits, kernel) && f in kernel
    modifies mm, mm.memMap
    ensures Ready(mm, limits, kernel') && Shown(mm, limits, kernel') == EagerStep(old(Shown(mm, limits, kernel)), Release(f), Answer(true, 0, 0))
  {
    ghost var m := mm.State();
    mm.FreeHeldPage(f);
    SameViews(m, mm.State());
    AbsSame(m, mm.State());
    kernel' := kernel - {f};
  }

  /** The kernel fills a page of its own and puts it into a segment, where there is none yet. */
  method MapEvent(mm: MemoryManager, limits: map<int, nat>, kernel: set<int>, ev: Event) returns (a: Answer, kernel': set<int>)
    requires Ready(mm, limits, kernel) && ev.Map? && Legal(limits, kernel, ev)
    modifies mm, mm.memMap, mm.pgDir, mm.phys
    ensures Ready(mm, limits, kernel')
    ensures Shown(mm, limits, kernel') == EagerStep(old(Shown(mm, limits, kernel)), ev, a)
    ensures !a.ok ==> FreeSet(old(mm.State())) == {}
  {
    ghost var m := mm.State();
    var Map(f, t, p, contents) := ev;
    PageInSegment(t, p, limits[t]);
    a, kernel' := Answer(true, 0, 0), kernel;
    var mapped, ok := TaskMap(mm, f, t, p, contents);
    if mapped {
      return;
    }
    a := Answer(ok, 0, 0);
    kernel' := if ok then kernel - {f} else kernel;
    LimitsAfterAccess(m, mm.State(), limits, t, p);
    PagesStep(old(Shown(mm, limits, kernel)), ev, a);
  }

  /** One event.  With 17 pages free, one for each page table of a segment and one for a task structure, none fails. */
  method Step(mm: MemoryManager, limits: map<int, nat>, kernel: set<int>, ev: Event) returns (a: Answer, limits': map<int, nat>, kernel': set<int>)
    requires Ready(mm, limits, kernel)
    modifies mm, mm.memMap, mm.pgDir, mm.phys
    ensures Ready(mm, limits', kernel')
    ensures Shown(mm, limits', kernel') == EagerStep(old(Shown(mm, limits, kernel)), ev, a)
    ensures EagerAnswer(old(Shown(mm, limits, kernel)), ev, a)
    ensures |FreeSet(old(mm.State()))| >= 17 ==> a.ok
  {
    a, limits', kernel' := Answer(true, 0, 0), limits, kernel;
    if Legal(limits, kernel, ev) {
      match ev
      case Fork(src, dst) =>
        a, limits' := ForkEvent(mm, limits, kernel, src, dst);
        kernel' := kernel + if a.ok then {a.frame} else {};
      case Load(_, _, _) => a, limits' := LoadEvent(mm, limits, kernel, ev);
      case Store(_, _, _, _) => a, limits' := StoreEvent(mm, limits, kernel, ev);
      case Exec(t) =>
        limits' := ExitEvent(mm, limits, kernel, t);
        limits' := limits[t := SLOT];
      case Exit(t) => limits' := ExitEvent(mm, limits, kernel, t);
      case Hold => a, kernel' := HoldEvent(mm, limits, kernel);
      case Map(_, _, _, _) => a, kernel' := MapEvent(mm, limits, kernel, ev);
      case Release(f) => kernel' := ReleaseEvent(mm, limits, kernel, f);
    }
  }

  /** Over every run, every task reads what it would read had every fork copied every page, and mem_map counts every
      reference and every page of the kernel's own. */
  method Run(mm: MemoryManager, limits: map<int, nat>, kernel: set<int>, evs: seq<Event>)
    returns (outs: seq<Answer>, limits': map<int, nat>, kernel': set<int>)
    requires Ready(mm, limits, kernel)
    modifies mm, mm.memMap, mm.pgDir, mm.phys
    ensures Ready(mm, limits', kernel') && |outs| == |evs|
    ensures Shown(mm, limits', kernel') == EagerRun(old(Shown(mm, limits, kernel)), evs, outs)
    ensures forall k :: 0 <= k < |evs| ==> Answered(old(Shown(mm, limits, kernel)), evs, outs, k)
  {
    outs, limits', kernel' := [], limits, kernel;
    ghost var w := Shown(mm, limits, kernel);
    for k := 0 to |evs|
      invariant Ready(mm, limits', kernel') && |outs| == k
      invariant Shown(mm, limits', kernel') == EagerRun(w, evs[..k], outs)
      invariant forall j :: 0 <= j < k ==> Answered(w, evs[..k], outs, j)
    {
      var a, l, ks := Step(mm, limits', kernel', evs[k]);
      RunGrows(w, evs[..k], outs, evs[k], a, evs[..k + 1], outs + [a]);
      outs, limits', kernel' := outs + [a], l, ks;
    }
    assert evs[..|evs|] == evs;
  }
}
