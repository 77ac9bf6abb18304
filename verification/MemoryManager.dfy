/** mm/memory.c and copy_mem of kernel/fork.c, working in place on mem_map, the page
    directory and physical memory.  Pages are named by frame number (address >> 12)
    and linear addresses by directory and table index.
 */
module MemoryManagement {
  import opened Sets
  import opened Paging

  ghost function FreeSet(m: Mem): set<int>
    requires Shape(m)
  {
    set f | LOW <= f < HIGH && IsFree(m, f)
  }

  predicate IsFree(m: Mem, f: int)
    requires Shape(m) && LOW <= f < HIGH
  {
    m.memMap[f - LOW] == 0
  }

  lemma LastOne<T>(s: set<T>, x: T)
    requires x in s
    ensures |s| >= 1
    ensures s - {x} != {} <==> |s| >= 2
    ensures s - {x} == {} ==> s == {x}
  {
    CardinalityWithout(s, x);
  }

  /** Page table entries base, base+1, ... each naming its own frame. */
  function IdentityTable(base: nat): (p: Page)
    requires base + ENTRIES <= HIGH
    ensures |p| == ENTRIES && forall e :: 0 <= e < ENTRIES ==> p[e] == Entry7(base + e)
  {
    seq<Word>(ENTRIES, e requires 0 <= e < ENTRIES => Entry7(base + e))
  }

  function BootDir(d: nat): Word {
    if d == 0 then 0x1007 else if d == 1 then 0x2007 else 0
  }

  function BootFrame(low: seq<Page>, f: nat): Page
    requires |low| == LOW
  {
    if f == 1 then IdentityTable(0)
    else if f == 2 then IdentityTable(ENTRIES)
    else if f < LOW then low[f]
    else ZeroPage()
  }

  lemma BootInv(m: Mem, low: seq<Page>)
    requires |low| == LOW && forall f :: 0 <= f < LOW ==> |low[f]| == ENTRIES
    requires |m.memMap| == PAGING_PAGES && |m.dir| == ENTRIES && |m.phys| == HIGH
    requires forall i :: 0 <= i < PAGING_PAGES ==> m.memMap[i] == 0
    requires forall d :: 0 <= d < ENTRIES ==> m.dir[d] == BootDir(d)
    requires forall f :: 0 <= f < HIGH ==> m.phys[f] == BootFrame(low, f)
    ensures Inv(m, {})
    ensures forall e :: 0 <= e < KERNEL_ENTRIES ==> Pte(m, 0, e) == Entry7(e)
  {
    assert Shape(m);
    assert forall d, f :: !HasTable(m, d, f);
    assert forall d, e, f :: !Maps(m, d, e, f);
    assert forall e :: 0 <= e < KERNEL_ENTRIES ==> Pte(m, 0, e) == Entry7(e);
    forall f
      ensures Refs(m, f) == {} && DirRefs(m, f) == {}
    {
    }
  }

  /** Entries outside the directory range [td, td + n) differ from before at most in their write bit. */
  ghost predicate Kept(m0: Mem, m: Mem, td: int, n: int)
    requires Shape(m0) && Shape(m)
  {
    && (forall d :: 0 <= d < ENTRIES && !(td <= d < td + n) ==> m.dir[d] == m0.dir[d])
    && (forall d, e :: 0 <= d < ENTRIES && 0 <= e < ENTRIES && !(td <= d < td + n) ==>
          Pte(m, d, e) == Pte(m0, d, e) || Pte(m, d, e) == ClearW(Pte(m0, d, e)))
  }

  /** The same tables are there and every task sees the same. */
  ghost predicate Unchanged(m0: Mem, m: Mem)
    requires Shape(m0) && Shape(m)
  {
    && (forall d :: 0 <= d < ENTRIES ==> Present(m.dir[d]) == Present(m0.dir[d]))
    && (forall d, e :: Visible(d, e) ==> Look(m, d, e) == Look(m0, d, e))
  }

  /** Directories td .. td+i-1 show the first nr pages of directories fd .. fd+i-1; the rest is as before. */
  ghost predicate Copied(m0: Mem, m: Mem, fd: nat, td: nat, i: nat, nr: int)
    requires Shape(m0) && Shape(m) && fd + i <= ENTRIES
  {
    forall d, e {:trigger Look(m, d, e)} :: Visible(d, e) ==>
      Look(m, d, e) == if td <= d < td + i && e < nr then Look(m0, d - td + fd, e) else Look(m0, d, e)
  }

  ghost predicate CopiedOne(m0: Mem, m: Mem, sd: nat, dd: nat, nr: int)
    requires Shape(m0) && Shape(m) && sd < ENTRIES
  {
    forall d, e {:trigger Look(m, d, e)} :: Visible(d, e) ==>
      Look(m, d, e) == if d == dd && e < nr then Look(m0, sd, e) else Look(m0, d, e)
  }

  ghost predicate WriteBitsOnly(m0: Mem, m: Mem, dd: int)
    requires Shape(m0) && Shape(m)
  {
    forall d, e :: 0 <= d < ENTRIES && 0 <= e < ENTRIES && d != dd ==>
      Pte(m, d, e) == Pte(m0, d, e) || Pte(m, d, e) == ClearW(Pte(m0, d, e))
  }

  /** Sharing entry e extends a partial copy of table sd by one page. */
  lemma ShareStep(m0: Mem, m: Mem, held: set<int>, sd: int, dd: int, e: int)
    requires CanShare(m, held, sd, dd, e) && Shape(m0)
    requires WriteBitsOnly(m0, m, dd) && CopiedOne(m0, m, sd, dd, e) && Look(m0, sd, e) == Look(m, sd, e)
    requires forall e' :: e <= e' < ENTRIES ==> !Present(Pte(m, dd, e'))
    ensures Sharable(m, sd, dd, e)
    ensures var m' := Share(m, sd, dd, e);
      && Inv(m', held) && m'.dir == m.dir && WriteBitsOnly(m0, m', dd) && CopiedOne(m0, m', sd, dd, e + 1)
      && forall e' :: e < e' < ENTRIES ==> !Present(Pte(m', dd, e'))
  {
    ShareEntries(m, held, sd, dd, e);
    ShareInv(m, held, sd, dd, e);
    ShareLook(m, held, sd, dd, e);
  }

  /** Sharing a page that is in use makes none free and takes none that was. */
  lemma ShareFree(m: Mem, held: set<int>, sd: int, dd: int, e: int)
    requires CanShare(m, held, sd, dd, e) && Sharable(m, sd, dd, e)
    ensures Shape(Share(m, sd, dd, e)) && FreeSet(Share(m, sd, dd, e)) == FreeSet(m)
  {
    ShareEntries(m, held, sd, dd, e);
    if IsUser(sd) {
      ReferencedIsCounted(m, held, sd, e);
    }
    var m' := Share(m, sd, dd, e);
    forall f | LOW <= f < HIGH
      ensures IsFree(m', f) <==> IsFree(m, f)
    {
    }
  }

  lemma AllocFree(m: Mem, f: int)
    requires Shape(m) && LOW <= f < HIGH && IsFree(m, f)
    ensures Shape(Alloc(m, f)) && f in FreeSet(m) && FreeSet(Alloc(m, f)) == FreeSet(m) - {f} && |FreeSet(Alloc(m, f))| == |FreeSet(m)| - 1
  {
    CardinalityWithout(FreeSet(m), f);
  }

  /** Frame f becomes an empty page table. */
  function MakeTable(m: Mem, d: int, f: int): Mem
    requires Shape(m) && LOW <= f < HIGH && 0 <= d < ENTRIES
  {
    SetDir(Alloc(m, f), d, Entry7(f))
  }

  lemma TableMade(m: Mem, held: set<int>, d: int, f: int)
    requires Inv(m, held) && IsUser(d) && !Present(m.dir[d]) && LOW <= f < HIGH && IsFree(m, f)
    ensures var m' := MakeTable(m, d, f);
      && Inv(m', held) && |FreeSet(m')| == |FreeSet(m)| - 1 && SameEntries(m, m')
      && (forall e :: 0 <= e < ENTRIES ==> Pte(m', d, e) == 0)
      && (forall d', e :: 0 <= d' < ENTRIES && 0 <= e < ENTRIES ==> Pte(m', d', e) == Pte(m, d', e))
      && Present(m'.dir[d]) && (forall d' :: 0 <= d' < ENTRIES && d' != d ==> m'.dir[d'] == m.dir[d'])
      && (forall g :: g in held ==> 0 <= g < HIGH && m'.phys[g] == m.phys[g])
  {
    AllocCorrect(m, held, f);
    AllocFree(m, f);
    AttachTable(Alloc(m, f), held + {f}, d, f);
    assert held + {f} - {f} == held;
    assert FreeSet(MakeTable(m, d, f)) == FreeSet(Alloc(m, f));
  }

  /** The page under entry e of directory index d is managed and has no other user. */
  predicate Alone(m: Mem, d: int, e: int)
    requires Shape(m) && 0 <= d < ENTRIES && 0 <= e < ENTRIES
  {
    var f := FrameOf(Pte(m, d, e));
    LOW <= f < HIGH && m.memMap[f - LOW] == 1
  }

  /** The page tables among directory entries fd .. fd+n-1. */
  function Tables(m: Mem, fd: nat, n: nat): (k: nat)
    requires Shape(m) && fd + n <= ENTRIES
    ensures k <= n
  {
    if n == 0 then 0 else Tables(m, fd, n - 1) + if Present(m.dir[fd + n - 1]) then 1 else 0
  }

  lemma {:induction false} MoreTables(m: Mem, fd: nat, i: nat, n: nat)
    requires Shape(m) && fd + n <= ENTRIES && i <= n
    ensures Tables(m, fd, i) <= Tables(m, fd, n)
    decreases n - i
  {
    if i < n {
      MoreTables(m, fd, i, n - 1);
    }
  }

  lemma {:induction false} SameTables(m: Mem, m': Mem, fd: nat, n: nat)
    requires Shape(m) && Shape(m') && m.dir == m'.dir && fd + n <= ENTRIES
    ensures Tables(m', fd, n) == Tables(m, fd, n)
  {
    if n > 0 {
      SameTables(m, m', fd, n - 1);
    }
  }

  /** The same entries and the same contents, for every task. */
  ghost predicate Alike(m0: Mem, m: Mem)
    requires Shape(m0) && Shape(m)
  {
    && m.dir == m0.dir
    && (forall d, e :: 0 <= d < ENTRIES && 0 <= e < ENTRIES ==> Pte(m, d, e) == Pte(m0, d, e))
    && (forall d, e :: Visible(d, e) ==> Look(m, d, e) == Look(m0, d, e))
  }

  lemma AlikeUnchanged(m0: Mem, m1: Mem, m2: Mem)
    requires Shape(m0) && Shape(m1) && Shape(m2) && Alike(m0, m1) && Unchanged(m1, m2)
    ensures Unchanged(m0, m2)
  {
  }

  /** A copy of what looks like m0 is a copy of m0. */
  lemma CopiedFrom(m0: Mem, m1: Mem, m2: Mem, fd: nat, td: nat, n: nat, nr: nat)
    requires Shape(m0) && Shape(m1) && Shape(m2) && Alike(m0, m1) && DirArgs(m0, fd, td, n, nr)
    requires Kept(m1, m2, td, n) && Copied(m1, m2, fd, td, n, nr)
    ensures Kept(m0, m2, td, n) && Copied(m0, m2, fd, td, n, nr)
  {
    forall d, e | Visible(d, e)
      ensures Look(m2, d, e) == if td <= d < td + n && e < nr then Look(m0, d - td + fd, e) else Look(m0, d, e)
    {
      assert td <= d < td + n && e < nr ==> Visible(d - td + fd, e);
    }
  }

  lemma CopiedOutside(m0: Mem, m: Mem, fd: nat, td: nat, i: nat, nr: int)
    requires Shape(m0) && Shape(m) && fd + i <= ENTRIES && Copied(m0, m, fd, td, i, nr)
    ensures forall d, e :: Visible(d, e) && !(td <= d < td + i) ==> Look(m, d, e) == Look(m0, d, e)
  {
  }

  class MemoryManager {
    const memMap: array<int>
    const pgDir: array<Word>
    const phys: array<Page>
    /** Pages owned by the kernel itself: task structures, pipe buffers, exec arguments. */
    ghost var held: set<int>

    ghost function State(): Mem
      reads memMap, pgDir, phys
    {
      Mem(memMap[..], pgDir[..], phys[..])
    }

    ghost predicate Valid()
      reads this, memMap, pgDir, phys
    {
      && memMap as object != pgDir as object && memMap as object != phys as object && pgDir as object != phys as object
      && Inv(State(), held)
    }

    /** setup_paging of boot/head.s: two kernel tables identity-map 8 Mb, nothing else is mapped. */
    constructor (low: seq<Page>)
      requires |low| == LOW && forall f :: 0 <= f < LOW ==> |low[f]| == ENTRIES
      ensures Valid() && fresh(memMap) && fresh(pgDir) && fresh(phys) && held == {}
      ensures (forall d :: IsUser(d) ==> !Present(pgDir[d])) && forall i :: 0 <= i < PAGING_PAGES ==> memMap[i] == 0
      ensures forall e :: 0 <= e < KERNEL_ENTRIES ==> Pte(State(), 0, e) == Entry7(e)
    {
      memMap := new int[PAGING_PAGES](i => 0);
      pgDir := new Word[ENTRIES](BootDir);
      phys := new Page[HIGH](f requires 0 <= f < HIGH => BootFrame(low, f));
      held := {};
      new;
      BootInv(State(), low);
    }

    /** get_free_page: the highest free frame, zeroed; 0 when there is none. */
    method GetFreePage() returns (page: int)
      requires Valid()
      modifies this, memMap, phys
      ensures Valid()
      ensures page == 0 <==> FreeSet(old(State())) == {}
      ensures page == 0 ==> State() == old(State()) && held == old(held)
      ensures page != 0 ==> FreeSet(State()) == FreeSet(old(State())) - {page} && page in FreeSet(old(State()))
      ensures page != 0 ==> |FreeSet(State())| == |FreeSet(old(State()))| - 1
      ensures page != 0 ==>
        && LOW <= page < HIGH && old(memMap[page - LOW]) == 0
        && (forall i :: page - LOW < i < PAGING_PAGES ==> old(memMap[i]) != 0)
        && State() == Alloc(old(State()), page) && held == old(held) + {page} && page !in old(held)
      ensures page != 0 ==> memMap[page - LOW] == 1 && |phys[page]| == 1024 && forall i :: 0 <= i < 1024 ==> phys[page][i] == 0
    {
      var i := PAGING_PAGES;
      while i > 0 && memMap[i - 1] != 0
        invariant 0 <= i <= PAGING_PAGES
        invariant forall j :: i <= j < PAGING_PAGES ==> memMap[j] != 0
      {
        i := i - 1;
      }
      if i == 0 {
        assert FreeSet(State()) == {};
        return 0;
      }
      page := i - 1 + LOW;
      AllocCorrect(State(), held, page);
      AllocFree(State(), page);
      memMap[i - 1] := 1;
      phys[page] := ZeroPage();
      held := held + {page};
      assert State() == Alloc(old(State()), page);
    }

    /** free_page.  The two panics of the source are its preconditions. */
    method FreePage(page: int)
      requires memMap.Length == PAGING_PAGES && pgDir.Length == ENTRIES && phys.Length == HIGH
      requires memMap as object != pgDir as object && memMap as object != phys as object
      requires Shape(State())
      requires 0 <= page < HIGH && (page >= LOW ==> memMap[page - LOW] > 0)
      modifies memMap
      ensures State() == Release(old(State()), page)
      ensures page >= LOW ==> memMap[page - LOW] == old(memMap[page - LOW]) - 1
      ensures forall i :: 0 <= i < PAGING_PAGES && i != page - LOW ==> memMap[i] == old(memMap[i])
    {
      if page < LOW {
        return;
      }
      memMap[page - LOW] := memMap[page - LOW] - 1;
      assert State() == Release(old(State()), page);
    }

    /** free_page_tables on `size` bytes from linear address `from`. */
    method FreePageTables(from: nat, size: nat)
      requires Valid()
      requires from % 0x40_0000 == 0 && SLOT_DIRS <= from / 0x40_0000
      requires from / 0x40_0000 + (size + 0x3f_ffff) / 0x40_0000 <= ENTRIES
      modifies memMap, pgDir, phys
      ensures Valid()
      ensures var td, n := from / 0x40_0000, (size + 0x3f_ffff) / 0x40_0000; var m, m' := old(State()), State();
        && (forall d :: td <= d < td + n ==> !Present(m'.dir[d]))
        && (forall d :: 0 <= d < ENTRIES && !(td <= d < td + n) ==> m'.dir[d] == m.dir[d])
        && (forall d, e :: 0 <= d < ENTRIES && 0 <= e < ENTRIES && !(td <= d < td + n) ==> Pte(m', d, e) == Pte(m, d, e))
        && (forall d, e :: Visible(d, e) ==> Look(m', d, e) == if td <= d < td + n then None else Look(m, d, e))
    {
      var td, n := from / 0x40_0000, (size + 0x3f_ffff) / 0x40_0000;
      ghost var m0 := State();
      for i := 0 to n
        invariant Valid()
        invariant forall d :: td <= d < td + i ==> !Present(pgDir[d])
        invariant forall d :: 0 <= d < ENTRIES && !(td <= d < td + i) ==> pgDir[d] == m0.dir[d]
        invariant forall d, e :: 0 <= d < ENTRIES && 0 <= e < ENTRIES && !(td <= d < td + i) ==> Pte(State(), d, e) == Pte(m0, d, e)
        invariant forall d, e :: Visible(d, e) ==> Look(State(), d, e) == if td <= d < td + i then None else Look(m0, d, e)
      {
        if Present(pgDir[td + i]) {
          FreeTable(td + i);
        }
      }
    }

    /** The body of free_page_tables' outer loop, for a directory entry that is present. */
    method FreeTable(d: int)
      requires Valid() && IsUser(d) && Present(pgDir[d])
      modifies memMap, pgDir, phys
      ensures Valid() && State().dir == Put(old(State()).dir, d, 0)
      ensures forall d', e :: 0 <= d' < ENTRIES && 0 <= e < ENTRIES && d' != d ==> Pte(State(), d', e) == Pte(old(State()), d', e)
      ensures forall d', e :: Visible(d', e) ==> Look(State(), d', e) == if d' == d then None else Look(old(State()), d', e)
    {
      ghost var m0 := State();
      var table := FrameOf(pgDir[d]);
      for nr := 0 to ENTRIES
        invariant Valid() && State().dir == m0.dir
        invariant forall e :: 0 <= e < nr ==> Pte(State(), d, e) == 0
        invariant forall d', e :: 0 <= d' < ENTRIES && 0 <= e < ENTRIES && (d' != d || e >= nr) ==> Pte(State(), d', e) == Pte(m0, d', e)
        invariant forall d', e :: Visible(d', e) && (d' != d || e >= nr) ==> Look(State(), d', e) == Look(m0, d', e)
      {
        FreeEntry(d, nr);
      }
      ghost var m := State();
      ReferencedIsCounted(m, held, d, 0);
      DropTable(m, held, d);
      FreePage(table);
      pgDir[d] := 0;
      assert State() == DetachTable(m, d);
    }

    /** The inner loop of copy_page_tables: share the first nr pages of table sd with the empty table dd. */
    method CopyTable(sd: int, dd: int, nr: int)
      requires Valid() && IsUser(dd) && (IsUser(sd) || sd == 0) && sd != dd && sd % SLOT_DIRS == dd % SLOT_DIRS
      requires 0 <= nr <= ENTRIES && (sd == 0 ==> nr <= KERNEL_ENTRIES)
      requires Present(pgDir[sd]) && Present(pgDir[dd])
      requires forall e :: 0 <= e < ENTRIES ==> !Present(Pte(State(), dd, e))
      modifies memMap, phys
      ensures Valid() && State().dir == old(State()).dir
      ensures WriteBitsOnly(old(State()), State(), dd)
      ensures CopiedOne(old(State()), State(), sd, dd, nr)
      ensures FreeSet(State()) == FreeSet(old(State()))
    {
      ghost var m0 := State();
      for e := 0 to nr
        invariant Valid() && State().dir == m0.dir && FreeSet(State()) == FreeSet(m0)
        invariant forall e' :: e <= e' < ENTRIES ==> !Present(Pte(State(), dd, e'))
        invariant WriteBitsOnly(m0, State(), dd)
        invariant CopiedOne(m0, State(), sd, dd, e)
      {
        ghost var m := State();
        assert IsUser(sd) ==> HasTable(m, sd, FrameOf(m.dir[sd]));
        assert phys[FrameOf(pgDir[sd])][e] == Pte(m, sd, e);
        if Present(phys[FrameOf(pgDir[sd])][e]) {
          ShareStep(m0, m, held, sd, dd, e);
          ShareFree(m, held, sd, dd, e);
          ShareEntry(sd, dd, e);
        }
      }
    }

    /** One turn of that loop, for a present page. */
    method ShareEntry(sd: int, dd: int, e: int)
      requires Valid() && CanShare(State(), held, sd, dd, e) && Sharable(State(), sd, dd, e)
      modifies memMap, phys
      ensures Sharable(old(State()), sd, dd, e) && State() == Share(old(State()), sd, dd, e)
    {
      ghost var m := State();
      assert HasTable(m, dd, FrameOf(m.dir[dd]));
      assert IsUser(sd) ==> HasTable(m, sd, FrameOf(m.dir[sd]));
      var fromTable, toTable := FrameOf(pgDir[sd]), FrameOf(pgDir[dd]);
      var thisPage := ClearW(phys[fromTable][e]);
      AboveLow(thisPage);
      phys[toTable] := Put(phys[toTable], e, thisPage);
      if thisPage > LOW * 4096 {
        phys[fromTable] := Put(phys[fromTable], e, thisPage);
        CountBounded(m, held, FrameOf(thisPage));
        memMap[FrameOf(thisPage) - LOW] := (memMap[FrameOf(thisPage) - LOW] + 1) % 0x1_0000;
      }
      assert State() == Share(m, sd, dd, e);
    }

    /** A fresh, empty table for directory index d; false when no page is left. */
    method NewTable(d: int) returns (ok: bool)
      requires Valid() && IsUser(d) && !Present(pgDir[d])
      modifies this, memMap, pgDir, phys
      ensures Valid() && held == old(held)
      ensures !ok ==> State() == old(State()) && FreeSet(State()) == {}
      ensures ok ==> Present(pgDir[d]) && SameEntries(old(State()), State())
      ensures ok ==> forall d' :: 0 <= d' < ENTRIES && d' != d ==> pgDir[d'] == old(State()).dir[d']
      ensures ok ==> forall e :: 0 <= e < ENTRIES ==> Pte(State(), d, e) == 0
      ensures ok <==> FreeSet(old(State())) != {}
      ensures ok ==> |FreeSet(State())| == |FreeSet(old(State()))| - 1
      ensures ok ==> forall f :: f in old(held) ==> State().phys[f] == old(State()).phys[f]
      ensures ok ==> forall d', e :: 0 <= d' < ENTRIES && 0 <= e < ENTRIES ==> Pte(State(), d', e) == Pte(old(State()), d', e)
    {
      ghost var m := State();
      var page := GetFreePage();
      if page == 0 {
        return false;
      }
      TableMade(m, old(held), d, page);
      pgDir[d] := Entry7(page);
      held := held - {page};
      assert held == old(held);
      assert State() == MakeTable(m, d, page);
      ok := true;
    }

    /** One directory entry of copy_page_tables; false when no page is left for the table. */
    method CopyDirectory(sd: int, dd: int, nr: int) returns (ok: bool)
      requires Valid() && IsUser(dd) && (IsUser(sd) || sd == 0) && sd != dd && sd % SLOT_DIRS == dd % SLOT_DIRS
      requires 0 <= nr <= ENTRIES && (sd == 0 ==> nr <= KERNEL_ENTRIES)
      requires Present(pgDir[sd]) && !Present(pgDir[dd])
      modifies this, memMap, pgDir, phys
      ensures Valid() && held == old(held)
      ensures !ok ==> State() == old(State()) && FreeSet(State()) == {}
      ensures ok ==> Kept(old(State()), State(), dd, 1)
      ensures ok ==> CopiedOne(old(State()), State(), sd, dd, nr)
      ensures ok ==> |FreeSet(State())| == |FreeSet(old(State()))| - 1
    {
      ok := NewTable(dd);
      if ok {
        CopyTable(sd, dd, nr);
      }
    }

    /** One turn of free_page_tables' inner loop. */
    method FreeEntry(d: int, e: int)
      requires Valid() && IsUser(d) && Present(pgDir[d]) && 0 <= e < ENTRIES
      modifies memMap, phys
      ensures Valid() && State().dir == old(State()).dir && Pte(State(), d, e) == 0
      ensures forall d', e' :: 0 <= d' < ENTRIES && 0 <= e' < ENTRIES && (d' != d || e' != e) ==> Pte(State(), d', e') == Pte(old(State()), d', e')
      ensures forall d', e' :: Visible(d', e') && (d' != d || e' != e) ==> Look(State(), d', e') == Look(old(State()), d', e')
    {
      ghost var m := State();
      ReferencedIsCounted(m, held, d, e);
      DropCorrect(m, held, d, e);
      var table := FrameOf(pgDir[d]);
      if Present(phys[table][e]) {
        FreePage(FrameOf(phys[table][e]));
      }
      phys[table] := Put(phys[table], e, 0);
      assert State() == Drop(m, d, e);
    }

    /** copy_page_tables; false means -1, out of memory part of the way. */
    method CopyPageTables(from: nat, to: nat, size: nat) returns (ok: bool)
      requires Valid()
      requires CopyArgs(State(), from, to, size)
      modifies this, memMap, pgDir, phys
      ensures Valid() && held == old(held)
      ensures Kept(old(State()), State(), to / 0x40_0000, Dirs(size))
      ensures forall d, e :: Visible(d, e) && !(to / 0x40_0000 <= d < to / 0x40_0000 + Dirs(size)) ==>
                Look(State(), d, e) == Look(old(State()), d, e)
      ensures ok ==> Copied(old(State()), State(), from / 0x40_0000, to / 0x40_0000, Dirs(size), Span(from))
      ensures ok ==> PagesShown(old(State()), State(), from, to, size)
      ensures ok <==> Tables(old(State()), from / 0x40_0000, Dirs(size)) <= |FreeSet(old(State()))|
    {
      ghost var m := State();
      ok := CopyDirectories(from / 0x40_0000, to / 0x40_0000, Dirs(size), Span(from));
      if ok {
        CopiedPages(m, State(), from, to, size);
      }
    }

    /** One turn of its loop. */
    method CopyNext(ghost m0: Mem, fd: nat, td: nat, i: nat, ghost n: nat, nr: nat) returns (ok: bool)
      requires Valid() && Shape(m0) && DirArgs(m0, fd, td, n, nr) && i < n
      requires Kept(m0, State(), td, i) && Copied(m0, State(), fd, td, i, nr)
      modifies this, memMap, pgDir, phys
      ensures Valid() && held == old(held)
      ensures !ok ==> State() == old(State()) && FreeSet(State()) == {} && Tables(m0, fd, i) < Tables(m0, fd, n)
      ensures !ok ==> Kept(m0, State(), td, n) && forall d, e :: Visible(d, e) && !(td <= d < td + n) ==> Look(State(), d, e) == Look(m0, d, e)
      ensures ok ==> Kept(m0, State(), td, i + 1) && Copied(m0, State(), fd, td, i + 1, nr)
      ensures ok ==> |FreeSet(State())| == |FreeSet(old(State()))| - (Tables(m0, fd, i + 1) - Tables(m0, fd, i))
    {
      ghost var m1 := State();
      MoreTables(m0, fd, i + 1, n);
      CopiedOutside(m0, m1, fd, td, i, nr);
      assert pgDir[fd + i] == m0.dir[fd + i];
      ok := true;
      if Present(pgDir[fd + i]) {
        SameOffset(fd, td, i);
        ok := CopyDirectory(fd + i, td + i, nr);
        if ok {
          CopiedStep(m0, m1, State(), fd, td, i, nr);
        }
      } else {
        NothingToCopy(m0, m1, fd, td, i, nr);
      }
    }

    /** Its loop over the directory. */
    method CopyDirectories(fd: nat, td: nat, n: nat, nr: nat) returns (ok: bool)
      requires Valid() && DirArgs(State(), fd, td, n, nr)
      modifies this, memMap, pgDir, phys
      ensures Valid() && held == old(held)
      ensures Kept(old(State()), State(), td, n)
      ensures forall d, e :: Visible(d, e) && !(td <= d < td + n) ==> Look(State(), d, e) == Look(old(State()), d, e)
      ensures ok ==> Copied(old(State()), State(), fd, td, n, nr)
      ensures ok <==> Tables(old(State()), fd, n) <= |FreeSet(old(State()))|
    {
      ghost var m0 := State();
      ok := true;
      for i := 0 to n
        invariant Valid() && held == old(held)
        invariant Kept(m0, State(), td, i)
        invariant Copied(m0, State(), fd, td, i, nr)
        invariant |FreeSet(State())| == |FreeSet(m0)| - Tables(m0, fd, i)
      {
        ok := CopyNext(m0, fd, td, i, n, nr);
        if !ok {
          return;
        }
      }
      CopiedOutside(m0, State(), fd, td, n, nr);
    }

    /** copy_mem: on failure everything it took is given back. */
    method CopyMem(nr: nat, oldBase: nat, limit: nat) returns (ok: bool)
      requires Valid() && 1 <= nr < 64 && CopyArgs(State(), oldBase, nr * 0x400_0000, limit)
      modifies this, memMap, pgDir, phys
      ensures Valid() && held == old(held)
      ensures Kept(old(State()), State(), nr * SLOT_DIRS, Dirs(limit))
      ensures ok ==> Copied(old(State()), State(), oldBase / 0x40_0000, nr * SLOT_DIRS, Dirs(limit), Span(oldBase))
      ensures ok ==> PagesShown(old(State()), State(), oldBase, nr * 0x400_0000, limit)
      ensures ok <==> Tables(old(State()), oldBase / 0x40_0000, Dirs(limit)) <= |FreeSet(old(State()))|
      ensures !ok ==> memMap[..] == old(memMap[..])
      ensures !ok ==> Unchanged(old(State()), State())
    {
      ghost var m0 := State();
      assert nr * 0x400_0000 / 0x40_0000 == nr * SLOT_DIRS;
      ok := CopyPageTables(oldBase, nr * 0x400_0000, limit);
      if !ok {
        ghost var m1 := State();
        FreePageTables(nr * 0x400_0000, limit);
        Restored(m0, m1, State(), held, nr * SLOT_DIRS, Dirs(limit));
      }
    }

    // -------------------------------------------------------------- faults

    /** put_page; false means 0, no page left for the table. */
    method PutPage(page: int, d: int, e: int) returns (ok: bool)
      requires Valid() && page in held && page < HIGH && IsUser(d) && 0 <= e < ENTRIES && !Present(Pte(State(), d, e))
      modifies this, memMap, pgDir, phys
      ensures Valid()
      ensures ok <==> Present(old(pgDir[d])) || FreeSet(old(State())) != {}
      ensures !ok ==> State() == old(State()) && held == old(held)
      ensures ok ==> held == old(held) - {page} && Pte(State(), d, e) == Entry7(page)
      ensures ok ==> (forall d' :: 0 <= d' < ENTRIES && d' != d ==> pgDir[d'] == old(State()).dir[d']) && Present(pgDir[d])
      ensures ok ==> Look(State(), d, e) == Some(old(State()).phys[page])
      ensures ok ==> forall d', e' :: Visible(d', e') && (d' != d || e' != e) ==> Look(State(), d', e') == Look(old(State()), d', e')
    {
      if !Present(pgDir[d]) {
        ok := NewTable(d);
        if !ok {
          return;
        }
      }
      ghost var m := State();
      assert HasTable(m, d, FrameOf(m.dir[d]));
      MapHeld(m, held, d, e, page);
      var table := FrameOf(pgDir[d]);
      phys[table] := Put(phys[table], e, Entry7(page));
      held := held - {page};
      assert State() == SetPte(m, d, e, Entry7(page));
      ok := true;
    }

    /** do_no_page.  It fails exactly when memory runs out, and then a page already taken is never given back. */
    method DoNoPage(d: int, e: int) returns (ok: bool)
      requires Valid() && IsUser(d) && 0 <= e < ENTRIES && !Present(Pte(State(), d, e))
      modifies this, memMap, pgDir, phys
      ensures Valid()
      ensures ok <==> |FreeSet(old(State()))| >= if Present(old(pgDir[d])) then 1 else 2
      ensures held == if ok then old(held) else old(held) + FreeSet(old(State()))
      ensures ok ==> (forall d' :: 0 <= d' < ENTRIES && d' != d ==> pgDir[d'] == old(State()).dir[d'])
      ensures ok ==> Look(State(), d, e) == Some(ZeroPage()) && Present(Pte(State(), d, e)) && Writable(Pte(State(), d, e))
      ensures ok ==> forall d', e' :: Visible(d', e') && (d' != d || e' != e) ==> Look(State(), d', e') == Look(old(State()), d', e')
      ensures !ok ==> State().dir == old(State()).dir && forall d', e' :: Visible(d', e') ==> Look(State(), d', e') == Look(old(State()), d', e')
    {
      ghost var m0 := State();
      var tmp := GetFreePage();
      if tmp == 0 {
        return false;
      }
      AllocCorrect(m0, old(held), tmp);
      LastOne(FreeSet(m0), tmp);
      ok := PutPage(tmp, d, e);
      assert ok ==> held == old(held);
    }

    /** un_wp_page on entry (d, e); false means that the task is killed for lack of memory. */
    method UnWpPage(d: int, e: int) returns (ok: bool)
      requires Valid() && IsUser(d) && 0 <= e < ENTRIES && Present(pgDir[d]) && Present(Pte(State(), d, e))
      modifies this, memMap, phys
      ensures Valid() && held == old(held) && State().dir == old(State()).dir
      ensures ok <==> Alone(old(State()), d, e) || FreeSet(old(State())) != {}
      ensures !ok ==> State() == old(State())
      ensures ok ==> Present(Pte(State(), d, e)) && Writable(Pte(State(), d, e))
      ensures forall d', e' :: 0 <= d' < ENTRIES && 0 <= e' < ENTRIES && (d' != d || e' != e) ==> Pte(State(), d', e') == Pte(old(State()), d', e')
      ensures forall d', e' :: Visible(d', e') ==> Look(State(), d', e') == Look(old(State()), d', e')
    {
      ghost var m := State();
      assert HasTable(m, d, FrameOf(m.dir[d])) && Maps(m, d, e, FrameOf(Pte(m, d, e)));
      var oldPage := FrameOf(phys[FrameOf(pgDir[d])][e]);
      if oldPage >= LOW && memMap[oldPage - LOW] == 1 {
        SetWriteBit(d, e);
        return true;
      }
      var newPage := TaskPage();
      if newPage == 0 {
        return false;
      }
      CopyToNewPage(d, e, newPage);
      assert held == old(held);
      ok := true;
    }

    /** The other branch: the page has no other user. */
    method SetWriteBit(d: int, e: int)
      requires Valid() && IsUser(d) && 0 <= e < ENTRIES && Present(pgDir[d]) && Present(Pte(State(), d, e)) && Alone(State(), d, e)
      modifies phys
      ensures Valid() && State().dir == old(State()).dir && Present(Pte(State(), d, e)) && Writable(Pte(State(), d, e))
      ensures forall d', e' :: 0 <= d' < ENTRIES && 0 <= e' < ENTRIES && (d' != d || e' != e) ==> Pte(State(), d', e') == Pte(old(State()), d', e')
      ensures forall d', e' :: Visible(d', e') ==> Look(State(), d', e') == Look(old(State()), d', e')
    {
      ghost var m := State();
      EnableWrite(m, held, d, e);
      SetPteEffect(m, held, d, e, SetW(Pte(m, d, e)));
      var table := FrameOf(pgDir[d]);
      phys[table] := Put(phys[table], e, SetW(phys[table][e]));
      assert State() == SetPte(m, d, e, SetW(Pte(m, d, e)));
    }

    /** The copying branch of un_wp_page, once a page has been obtained. */
    method CopyToNewPage(d: int, e: int, newPage: int)
      requires Valid() && IsUser(d) && 0 <= e < ENTRIES && Present(pgDir[d]) && Present(Pte(State(), d, e))
      requires newPage in held && LOW <= newPage < HIGH
      modifies this, memMap, phys
      ensures Valid() && held == old(held) - {newPage} && State().dir == old(State()).dir
      ensures Present(Pte(State(), d, e)) && Writable(Pte(State(), d, e))
      ensures forall d', e' :: 0 <= d' < ENTRIES && 0 <= e' < ENTRIES && (d' != d || e' != e) ==> Pte(State(), d', e') == Pte(old(State()), d', e')
      ensures forall d', e' :: Visible(d', e') ==> Look(State(), d', e') == Look(old(State()), d', e')
    {
      ghost var m := State();
      CopyOnWriteCorrect(m, held, d, e, newPage);
      var table := FrameOf(pgDir[d]);
      var oldPage := FrameOf(phys[table][e]);
      if oldPage >= LOW {
        memMap[oldPage - LOW] := memMap[oldPage - LOW] - 1;
      }
      phys[table] := Put(phys[table], e, Entry7(newPage));
      phys[newPage] := phys[oldPage];
      held := held - {newPage};
      assert State() == CopyOnWrite(m, d, e, newPage);
    }

    /** write_verify: afterwards the page is absent or may be written without reaching anyone else. */
    method WriteVerify(d: int, e: int) returns (ok: bool)
      requires Valid() && IsUser(d) && 0 <= e < ENTRIES
      modifies this, memMap, phys
      ensures Valid() && held == old(held) && State().dir == old(State()).dir
      ensures ok && Present(Pte(State(), d, e)) ==> Writable(Pte(State(), d, e))
      ensures !ok ==> State() == old(State()) && FreeSet(State()) == {}
      ensures forall d', e' :: 0 <= d' < ENTRIES && 0 <= e' < ENTRIES && (d' != d || e' != e) ==> Pte(State(), d', e') == Pte(old(State()), d', e')
      ensures forall d', e' :: Visible(d', e') ==> Look(State(), d', e') == Look(old(State()), d', e')
    {
      if !Present(pgDir[d]) {
        return true;
      }
      ghost var m := State();
      assert HasTable(m, d, FrameOf(m.dir[d]));
      var w := phys[FrameOf(pgDir[d])][e];
      assert w == Pte(m, d, e);
      if Present(w) && !Writable(w) {
        ok := UnWpPage(d, e);
      } else {
        ok := true;
      }
    }

    /** verify_area over linear pages first .. first+n-1: the kernel may then store there on the task's behalf. */
    method VerifyArea(first: nat, n: nat) returns (ok: bool)
      requires Valid() && SLOT_DIRS * ENTRIES <= first && first + n <= ENTRIES * ENTRIES
      modifies this, memMap, phys
      ensures Valid() && held == old(held)
      ensures !ok ==> FreeSet(State()) == {} && n > 0
      ensures ok ==> forall lp :: first <= lp < first + n && Present(PteAt(State(), lp)) ==>
                Writable(PteAt(State(), lp)) && LOW <= FrameOf(PteAt(State(), lp)) < HIGH && memMap[FrameOf(PteAt(State(), lp)) - LOW] == 1
      ensures forall d', e' :: Visible(d', e') ==> Look(State(), d', e') == Look(old(State()), d', e')
    {
      for i := 0 to n
        invariant Valid() && held == old(held)
        invariant forall lp :: first <= lp < first + i && Present(PteAt(State(), lp)) ==> Writable(PteAt(State(), lp))
        invariant forall d', e' :: Visible(d', e') ==> Look(State(), d', e') == Look(old(State()), d', e')
      {
        ghost var m := State();
        ok := WriteVerify((first + i) / ENTRIES, (first + i) % ENTRIES);
        if !ok {
          return;
        }
        forall lp | first <= lp < first + i
          ensures PteAt(State(), lp) == PteAt(m, lp)
        {
          assert lp / ENTRIES != (first + i) / ENTRIES || lp % ENTRIES != (first + i) % ENTRIES;
        }
      }
      ok := true;
      forall lp | first <= lp < first + n && Present(PteAt(State(), lp))
        ensures LOW <= FrameOf(PteAt(State(), lp)) < HIGH && memMap[FrameOf(PteAt(State(), lp)) - LOW] == 1
      {
        WritableIsPrivate(State(), held, lp / ENTRIES, lp % ENTRIES);
      }
    }

    /** The page effects of copy_process: p is the page for the task structure, 0 when refused. */
    method CopyProcess(nr: nat, oldBase: nat, limit: nat) returns (p: int)
      requires Valid() && 1 <= nr < 64 && CopyArgs(State(), oldBase, nr * 0x400_0000, limit)
      modifies this, memMap, pgDir, phys
      ensures Valid() && (p != 0 <==> Tables(old(State()), oldBase / 0x40_0000, Dirs(limit)) < |FreeSet(old(State()))|)
      ensures p == 0 ==> held == old(held) && memMap[..] == old(memMap[..])
      ensures p == 0 ==> Unchanged(old(State()), State())
      ensures p != 0 ==> p !in old(held) && held == old(held) + {p} && Kept(old(State()), State(), nr * SLOT_DIRS, Dirs(limit))
      ensures p != 0 ==> Copied(old(State()), State(), oldBase / 0x40_0000, nr * SLOT_DIRS, Dirs(limit), Span(oldBase))
      ensures p != 0 ==> PagesShown(old(State()), State(), oldBase, nr * 0x400_0000, limit)
    {
      ghost var m0, held0 := State(), held;
      p := TaskPage();
      if p != 0 {
        SameTables(m0, State(), oldBase / 0x40_0000, Dirs(limit));
        p := CopyInto(p, nr, oldBase, limit, m0, held0);
      }
    }

    /** The same once there is a page for the task structure; m0 is memory before that. */
    method CopyInto(p: int, nr: nat, oldBase: nat, limit: nat, ghost m0: Mem, ghost held0: set<int>) returns (q: int)
      requires Valid() && 1 <= nr < 64 && CopyArgs(State(), oldBase, nr * 0x400_0000, limit)
      requires LOW <= p < HIGH && p !in held0 && held == held0 + {p}
      requires Shape(m0) && Alike(m0, State()) && m0.memMap[p - LOW] == 0 && memMap[..] == m0.memMap[p - LOW := 1]
      modifies this, memMap, pgDir, phys
      ensures Valid() && (q == p || q == 0) && (q == p <==> Tables(old(State()), oldBase / 0x40_0000, Dirs(limit)) <= |FreeSet(old(State()))|)
      ensures q == 0 ==> held == held0 && memMap[..] == m0.memMap && Unchanged(m0, State())
      ensures q == p ==> held == held0 + {p} && Kept(m0, State(), nr * SLOT_DIRS, Dirs(limit))
      ensures q == p ==> Copied(m0, State(), oldBase / 0x40_0000, nr * SLOT_DIRS, Dirs(limit), Span(oldBase))
      ensures q == p ==> PagesShown(m0, State(), oldBase, nr * 0x400_0000, limit)
    {
      ghost var m1 := State();
      var ok := CopyOrFree(p, nr, oldBase, limit);
      q := p;
      if ok {
        PagesFrom(m0, m1, State(), oldBase, nr * 0x400_0000, limit);
        CopiedFrom(m0, m1, State(), oldBase / 0x40_0000, nr * SLOT_DIRS, Dirs(limit), Span(oldBase));
      } else {
        AlikeUnchanged(m0, m1, State());
        assert memMap[..] == m0.memMap[p - LOW := 1][p - LOW := 0];
        assert held == held0;
        q := 0;
      }
    }

    /** copy_mem for a task whose structure is in page p, which is given back on failure. */
    method CopyOrFree(p: int, nr: nat, oldBase: nat, limit: nat) returns (ok: bool)
      requires Valid() && p in held && 1 <= nr < 64 && CopyArgs(State(), oldBase, nr * 0x400_0000, limit)
      modifies this, memMap, pgDir, phys
      ensures Valid() && (ok <==> Tables(old(State()), oldBase / 0x40_0000, Dirs(limit)) <= |FreeSet(old(State()))|)
      ensures ok ==> held == old(held) && Kept(old(State()), State(), nr * SLOT_DIRS, Dirs(limit))
      ensures ok ==> Copied(old(State()), State(), oldBase / 0x40_0000, nr * SLOT_DIRS, Dirs(limit), Span(oldBase))
      ensures ok ==> PagesShown(old(State()), State(), oldBase, nr * 0x400_0000, limit)
      ensures !ok ==> LOW <= p < HIGH && held == old(held) - {p} && memMap[..] == old(memMap[..])[p - LOW := 0] && Unchanged(old(State()), State())
    {
      ok := CopyMem(nr, oldBase, limit);
      if !ok {
        FreeHeldPage(p);
      }
    }

    /** A page for the kernel's own use. */
    method TaskPage() returns (p: int)
      requires Valid()
      modifies this, memMap, phys
      ensures Valid() && (p == 0 <==> FreeSet(old(State())) == {}) && (p == 0 ==> State() == old(State()) && held == old(held))
      ensures p != 0 ==> LOW <= p < HIGH && old(memMap[p - LOW]) == 0 && p !in old(held) && held == old(held) + {p}
      ensures p != 0 ==> memMap[..] == old(memMap[..])[p - LOW := 1]
      ensures p != 0 ==> |FreeSet(State())| == |FreeSet(old(State()))| - 1
      ensures Alike(old(State()), State())
    {
      ghost var m := State();
      p := GetFreePage();
      if p != 0 {
        AllocCorrect(m, old(held), p);
      }
    }

    /** The kernel writes into a page it keeps for itself. */
    method Fill(f: int, contents: Page)
      requires Valid() && f in held && |contents| == ENTRIES
      modifies phys
      ensures Valid() && LOW <= f < HIGH && State().phys[f] == contents && State().dir == old(State()).dir
      ensures FreeSet(State()) == FreeSet(old(State())) && SameEntries(old(State()), State())
      ensures forall d, e :: 0 <= d < ENTRIES && 0 <= e < ENTRIES ==> Present(Pte(State(), d, e)) == Present(Pte(old(State()), d, e))
    {
      ghost var m := State();
      ReleaseHeld(m, held, f);
      ScribbleUnseen(m, held, f, contents);
      phys[f] := contents;
      assert State() == Scribble(m, f, contents);
    }

    /** free_page on a page the kernel keeps for itself. */
    method FreeHeldPage(p: int)
      requires Valid() && p in held
      modifies this, memMap
      ensures Valid() && held == old(held) - {p} && LOW <= p < HIGH
      ensures memMap[..] == old(memMap[..])[p - LOW := 0] && State().dir == old(State()).dir && SameEntries(old(State()), State())
    {
      ghost var m := State();
      ReleaseHeld(m, held, p);
      FreePage(p);
      held := held - {p};
    }

    /** A child that exits without having written gives back exactly what its fork took. */
    method ForkThenExit(nr: nat, oldBase: nat, limit: nat) returns (ok: bool)
      requires Valid() && 1 <= nr < 64 && CopyArgs(State(), oldBase, nr * 0x400_0000, limit)
      modifies this, memMap, pgDir, phys
      ensures Valid() && held == old(held) && memMap[..] == old(memMap[..])
      ensures Kept(old(State()), State(), nr * SLOT_DIRS, Dirs(limit))
    {
      ghost var m0 := State();
      ok := CopyMem(nr, oldBase, limit);
      if ok {
        ghost var m1 := State();
        assert nr * 0x400_0000 / 0x40_0000 == nr * SLOT_DIRS;
        FreePageTables(nr * 0x400_0000, limit);
        Restored(m0, m1, State(), held, nr * SLOT_DIRS, Dirs(limit));
      }
    }
  }

  /** The entry for linear page number lp. */
  function PteAt(m: Mem, lp: int): Word
    requires Shape(m) && 0 <= lp < ENTRIES * ENTRIES
  {
    Pte(m, lp / ENTRIES, lp % ENTRIES)
  }

  /** Cleaning up after a failed copy leaves every reference, hence every counter, as it was. */
  lemma Restored(m0: Mem, m1: Mem, m2: Mem, held: set<int>, td: int, n: int)
    requires Inv(m0, held) && Inv(m2, held) && Shape(m1) && 0 <= td && td + n <= ENTRIES
    requires Kept(m0, m1, td, n)
    requires forall d :: td <= d < td + n ==> !Present(m0.dir[d]) && !Present(m2.dir[d])
    requires forall d :: 0 <= d < ENTRIES && !(td <= d < td + n) ==> m2.dir[d] == m1.dir[d]
    requires forall d, e :: 0 <= d < ENTRIES && 0 <= e < ENTRIES && !(td <= d < td + n) ==> Pte(m2, d, e) == Pte(m1, d, e)
    ensures Kept(m0, m2, td, n) && m2.memMap == m0.memMap
  {
    forall d, e, f
      ensures Maps(m0, d, e, f) <==> Maps(m2, d, e, f)
    {
    }
    CountsDetermined(m0, m2, held);
  }

  /** Ranges of directory entries as copy_page_tables demands them. */
  ghost predicate DirArgs(m: Mem, fd: nat, td: nat, n: nat, nr: nat)
    requires Shape(m)
  {
    && SLOT_DIRS <= td && td + n <= ENTRIES && nr <= ENTRIES
    && (if fd == 0 then n <= 1 && nr <= KERNEL_ENTRIES else SLOT_DIRS <= fd && fd + n <= ENTRIES)
    && (fd + n <= td || td + n <= fd) && fd % SLOT_DIRS == td % SLOT_DIRS
    && forall d :: td <= d < td + n ==> !Present(m.dir[d])
  }

  lemma SameOffset(fd: nat, td: nat, i: nat)
    requires fd % SLOT_DIRS == td % SLOT_DIRS
    ensures (fd + i) % SLOT_DIRS == (td + i) % SLOT_DIRS
  {
  }

  lemma NothingToCopy(m0: Mem, m1: Mem, fd: nat, td: nat, i: nat, nr: int)
    requires Shape(m0) && Shape(m1) && fd + i < ENTRIES && td + i < ENTRIES
    requires fd + i < td || td + i <= fd + i
    requires Kept(m0, m1, td, i) && !Present(m1.dir[fd + i]) && !Present(m0.dir[td + i])
    requires Copied(m0, m1, fd, td, i, nr)
    ensures Kept(m0, m1, td, i + 1) && Copied(m0, m1, fd, td, i + 1, nr)
  {
  }

  lemma CopiedStep(m0: Mem, m1: Mem, m2: Mem, fd: nat, td: nat, i: nat, nr: int)
    requires Shape(m0) && Shape(m1) && Shape(m2) && fd + i < ENTRIES && td + i < ENTRIES && SLOT_DIRS <= td
    requires fd + i < td || td + i < fd
    requires 0 <= nr <= ENTRIES && (IsUser(fd + i) || (fd + i == 0 && nr <= KERNEL_ENTRIES))
    requires Kept(m0, m1, td, i) && Kept(m1, m2, td + i, 1)
    requires Copied(m0, m1, fd, td, i, nr) && CopiedOne(m1, m2, fd + i, td + i, nr)
    ensures Kept(m0, m2, td, i + 1) && Copied(m0, m2, fd, td, i + 1, nr)
  {
    CopiedOutside(m0, m1, fd, td, i, nr);
  }

  function Dirs(size: nat): nat { (size + 0x3f_ffff) / 0x40_0000 }

  /** Entries copied per table: the kernel's first 640 kB when forking task 0, whole tables otherwise. */
  function Span(from: nat): nat { if from == 0 then KERNEL_ENTRIES else ENTRIES }

  /** Page p above `to` is now what page p above `from` was. */
  predicate PageShown(m0: Mem, m: Mem, from: nat, to: nat, p: nat)
    requires Shape(m0) && Shape(m)
  {
    && from / 0x40_0000 + p / 1024 < 1024 && to / 0x40_0000 + p / 1024 < 1024
    && Look(m, to / 0x40_0000 + p / 1024, p % 1024) == Look(m0, from / 0x40_0000 + p / 1024, p % 1024)
  }

  /** Every page of the range is; of task 0's segment, which starts at address 0, the first 160 pages. */
  ghost predicate PagesShown(m0: Mem, m: Mem, from: nat, to: nat, size: nat)
    requires Shape(m0) && Shape(m)
  {
    forall p: nat :: p * 4096 < size && (from == 0 ==> p < 160) ==> PageShown(m0, m, from, to, p)
  }

  lemma CopiedPages(m0: Mem, m: Mem, from: nat, to: nat, size: nat)
    requires Shape(m0) && Shape(m) && CopyArgs(m0, from, to, size)
    requires Copied(m0, m, from / 0x40_0000, to / 0x40_0000, Dirs(size), Span(from))
    ensures PagesShown(m0, m, from, to, size)
  {
    var fd, td := from / 0x40_0000, to / 0x40_0000;
    forall p: nat | p * 4096 < size && (from == 0 ==> p < 160)
      ensures PageShown(m0, m, from, to, p)
    {
      var q, e := p / 1024, p % 1024;
      assert q * 0x40_0000 <= p * 4096 && q < Dirs(size);
      assert Visible(td + q, e);
      assert Look(m, td + q, e) == Look(m0, fd + q, e);
    }
  }

  lemma PagesFrom(m0: Mem, m1: Mem, m2: Mem, from: nat, to: nat, size: nat)
    requires Shape(m0) && Shape(m1) && Shape(m2) && Alike(m0, m1) && CopyArgs(m1, from, to, size) && PagesShown(m1, m2, from, to, size)
    ensures PagesShown(m0, m2, from, to, size)
  {
    forall p: nat | p * 4096 < size && (from == 0 ==> p < 160)
      ensures PageShown(m0, m2, from, to, p)
    {
      assert PageShown(m1, m2, from, to, p);
      assert p / 1024 * 0x40_0000 <= p * 4096 && p / 1024 < Dirs(size);
      assert Visible(from / 0x40_0000 + p / 1024, p % 1024);
    }
  }

  /** What copy_page_tables demands: aligned disjoint ranges, an unused target, equal offsets in their slots. */
  ghost predicate CopyArgs(m: Mem, from: nat, to: nat, size: nat)
    requires Shape(m)
  {
    && from % 0x40_0000 == 0 && to % 0x40_0000 == 0
    && DirArgs(m, from / 0x40_0000, to / 0x40_0000, Dirs(size), Span(from))
  }

  predicate Managed(f: int) { LOW <= f < HIGH }

  ghost function FramesBelow(h: int): set<int> { set f | LOW <= f < h && Managed(f) }

  /** The kernel takes the highest page, of those below h. */
  method TakeHighest(mm: MemoryManager, h: int)
    requires mm.Valid() && LOW < h <= HIGH && FreeSet(mm.State()) == FramesBelow(h)
    modifies mm, mm.memMap, mm.phys
    ensures mm.Valid() && FreeSet(mm.State()) == FramesBelow(h - 1) && mm.State().dir == old(mm.State()).dir
  {
    ghost var m := mm.State();
    var page := mm.GetFreePage();
    HighestIs(m, h, page);
  }

  lemma HighestIs(m: Mem, h: int, page: int)
    requires Shape(m) && LOW < h <= HIGH && FreeSet(m) == FramesBelow(h)
    requires page == 0 ==> FreeSet(m) == {}
    requires page != 0 ==> page in FreeSet(m) && forall i :: page - LOW < i < PAGING_PAGES ==> m.memMap[i] != 0
    ensures page == h - 1 && FreeSet(m) - {page} == FramesBelow(h - 1)
  {
    assert h - 1 in FreeSet(m);
    assert IsFree(m, h - 1) && m.memMap[h - 1 - LOW] == 0;
    assert page in FramesBelow(h);
  }

  /** The kernel takes every page but one. */
  method TakeAllButOne(mm: MemoryManager)
    requires mm.Valid() && FreeSet(mm.State()) == FramesBelow(HIGH)
    modifies mm, mm.memMap, mm.phys
    ensures mm.Valid() && FreeSet(mm.State()) == {LOW} && mm.State().dir == old(mm.State()).dir
  {
    var h := HIGH;
    while h > LOW + 1
      invariant LOW < h <= HIGH && mm.Valid() && mm.State().dir == old(mm.State()).dir
      invariant FreeSet(mm.State()) == FramesBelow(h)
    {
      TakeHighest(mm, h);
      h := h - 1;
    }
    assert FramesBelow(LOW + 1) == {LOW};
  }

  /** The page that do_no_page loses.  The kernel holds all pages but one and no task has a page table yet: the fault fails,
      no page is left, and the last one is held although nothing names it. */
  method LosesLastPage(low: seq<Page>) returns (mm: MemoryManager, ok: bool)
    requires |low| == LOW && forall f :: 0 <= f < LOW ==> |low[f]| == ENTRIES
    ensures mm.Valid() && !ok && LOW in mm.held && mm.memMap[0] == 1
    ensures forall d :: IsUser(d) ==> !Present(mm.State().dir[d])
  {
    mm := new MemoryManager(low);
    assert FreeSet(mm.State()) == FramesBelow(HIGH);
    TakeAllButOne(mm);
    ok := mm.DoNoPage(SLOT_DIRS, 0);
    ReleaseHeld(mm.State(), mm.held, LOW);
  }
}
