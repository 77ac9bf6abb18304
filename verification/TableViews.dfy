/** What the tasks can see through their page tables, entry by entry, and how faults, loads, stores
    and the kernel's own mappings change it.
 */
module TableViews {
  import opened Paging
  import opened MemoryManagement

  /** The page seen at directory index and table index. */
  type Views = map<(int, int), Page>

  const SLOT: nat := 0x400_0000

  function Source(fd: int, td: int, n: int, nr: int, d: int, e: int): (int, int) {
    if td <= d < td + n && e < nr then (d - td + fd, e) else (d, e)
  }

  /** Every page of directories fd .. fd+n-1 (first nr entries each) is duplicated at td. */
  ghost function CopyRange(a: Views, fd: int, td: int, n: int, nr: int): Views {
    map d: int, e: int | 0 <= d < ENTRIES && 0 <= e < ENTRIES && Visible(d, e) && Source(fd, td, n, nr, d, e) in a
      :: (d, e) := a[Source(fd, td, n, nr, d, e)]
  }

  ghost function FreeRange(a: Views, td: int, n: int): Views {
    map k | k in a && !(td <= k.0 < td + n) :: a[k]
  }

  lemma WithWordIs(a: Views, k: (int, int), page: Page, i: int, v: Word)
    requires page == (if k in a then a[k] else ZeroPage()) && 0 <= i < |page|
    ensures WithWord(a, k, i, v) == a[k := Put(page, i, v)]
  {
  }

  ghost function Touched(a: Views, k: (int, int)): Views {
    if k in a then a else a[k := ZeroPage()]
  }

  ghost function WordIn(a: Views, k: (int, int), i: int): Word {
    if k in a && 0 <= i < |a[k]| then a[k][i] else 0
  }

  ghost function WithWord(a: Views, k: (int, int), i: int, v: Word): Views {
    var b := Touched(a, k);
    if 0 <= i < |b[k]| then b[k := Put(b[k], i, v)] else b
  }

  ghost function Entries(m: Mem): Views
    requires Shape(m)
  {
    map d: int, e: int | 0 <= d < ENTRIES && 0 <= e < ENTRIES && Visible(d, e) && Look(m, d, e).Some?
      :: (d, e) := Look(m, d, e).value
  }

  lemma EntryOf(m: Mem, d: int, e: int)
    requires Shape(m) && 0 <= d < ENTRIES && 0 <= e < ENTRIES && Visible(d, e)
    ensures (d, e) in Entries(m) <==> Look(m, d, e).Some?
    ensures (d, e) in Entries(m) ==> Entries(m)[(d, e)] == Look(m, d, e).value
  {
  }

  lemma SameViews(m: Mem, m': Mem)
    requires Shape(m) && Shape(m')
    requires forall d, e :: Visible(d, e) ==> Look(m', d, e) == Look(m, d, e)
    ensures Entries(m') == Entries(m)
  {
  }

  lemma CopiedEntry(m: Mem, m': Mem, fd: nat, td: nat, n: nat, nr: nat, d: int, e: int)
    requires Shape(m) && Shape(m') && DirArgs(m, fd, td, n, nr) && Visible(d, e)
    requires Copied(m, m', fd, td, n, nr)
    ensures var s := Source(fd, td, n, nr, d, e);
      Visible(s.0, s.1) && 0 <= s.0 < ENTRIES && 0 <= s.1 < ENTRIES && Look(m', d, e) == Look(m, s.0, s.1)
  {
    assert Look(m', d, e) == Look(m', d, e);
  }

  lemma CopiedViews(m: Mem, m': Mem, fd: nat, td: nat, n: nat, nr: nat)
    requires Shape(m) && Shape(m') && DirArgs(m, fd, td, n, nr)
    requires Copied(m, m', fd, td, n, nr)
    ensures Entries(m') == CopyRange(Entries(m), fd, td, n, nr)
  {
    var b := CopyRange(Entries(m), fd, td, n, nr);
    forall d: int, e: int | 0 <= d < ENTRIES && 0 <= e < ENTRIES && Visible(d, e)
      ensures (d, e) in Entries(m') <==> (d, e) in b
      ensures (d, e) in b ==> Entries(m')[(d, e)] == b[(d, e)]
    {
      CopiedEntry(m, m', fd, td, n, nr, d, e);
      var s := Source(fd, td, n, nr, d, e);
      EntryOf(m, s.0, s.1);
      EntryOf(m', d, e);
    }
  }

  lemma FreedViews(m: Mem, m': Mem, td: int, n: int)
    requires Shape(m) && Shape(m')
    requires forall d, e :: Visible(d, e) ==> Look(m', d, e) == if td <= d < td + n then None else Look(m, d, e)
    ensures Entries(m') == FreeRange(Entries(m), td, n)
  {
  }

  lemma UpdatedView(m: Mem, m': Mem, d: int, e: int, p: Page)
    requires Shape(m) && Shape(m') && IsUser(d) && 0 <= e < ENTRIES
    requires Look(m', d, e) == Some(p)
    requires forall d', e' :: Visible(d', e') && (d' != d || e' != e) ==> Look(m', d', e') == Look(m, d', e')
    ensures Entries(m') == Entries(m)[(d, e) := p]
  {
  }

  // ---------------------------------------------------------------- the kernel's machine

  /** A user access to an absent page: the fault of do_no_page, or nothing. */
  method Touch(mm: MemoryManager, d: int, e: int) returns (ok: bool)
    requires mm.Valid() && IsUser(d) && 0 <= e < ENTRIES
    modifies mm, mm.memMap, mm.pgDir, mm.phys
    ensures mm.Valid() && old(mm.held) <= mm.held
    ensures forall d' :: 0 <= d' < ENTRIES && d' != d ==> mm.State().dir[d'] == old(mm.State()).dir[d']
    ensures !ok ==> mm.State().dir == old(mm.State()).dir
    ensures ok ==> Look(mm.State(), d, e).Some? && Entries(mm.State()) == Touched(old(Entries(mm.State())), (d, e))
    ensures !ok ==> Entries(mm.State()) == old(Entries(mm.State())) && |FreeSet(old(mm.State()))| < 2
    ensures ok ==> mm.State() == old(mm.State()) || Writable(Pte(mm.State(), d, e))
  {
    ghost var m := mm.State();
    EntryOf(m, d, e);
    var w: Word := if Present(mm.pgDir[d]) then mm.phys[FrameOf(mm.pgDir[d])][e] else 0;
    assert w == Pte(m, d, e);
    if Present(w) {
      assert Maps(m, d, e, FrameOf(w));
      return true;
    }
    ok := mm.DoNoPage(d, e);
    if ok {
      UpdatedView(m, mm.State(), d, e, ZeroPage());
    } else {
      SameViews(m, mm.State());
    }
  }

  /** A user load. */
  method UserLoad(mm: MemoryManager, d: int, e: int, i: int) returns (ok: bool, v: Word)
    requires mm.Valid() && IsUser(d) && 0 <= e < ENTRIES && 0 <= i < ENTRIES
    modifies mm, mm.memMap, mm.pgDir, mm.phys
    ensures mm.Valid() && old(mm.held) <= mm.held
    ensures forall d' :: 0 <= d' < ENTRIES && d' != d ==> mm.State().dir[d'] == old(mm.State()).dir[d']
    ensures !ok ==> mm.State().dir == old(mm.State()).dir && v == 0
    ensures ok ==> Entries(mm.State()) == Touched(old(Entries(mm.State())), (d, e)) && v == WordIn(old(Entries(mm.State())), (d, e), i)
    ensures !ok ==> Entries(mm.State()) == old(Entries(mm.State())) && |FreeSet(old(mm.State()))| < 2
  {
    v := 0;
    ok := Touch(mm, d, e);
    if ok {
      EntryOf(mm.State(), d, e);
      v := mm.phys[FrameOf(mm.phys[FrameOf(mm.pgDir[d])][e])][i];
    }
  }

  /** The write-protection fault of do_wp_page, or nothing: afterwards the page is private. */
  method Unprotect(mm: MemoryManager, d: int, e: int) returns (ok: bool)
    requires mm.Valid() && IsUser(d) && 0 <= e < ENTRIES && Look(mm.State(), d, e).Some?
    modifies mm, mm.memMap, mm.phys
    ensures mm.Valid() && mm.held == old(mm.held) && mm.State().dir == old(mm.State()).dir && Entries(mm.State()) == old(Entries(mm.State()))
    ensures ok ==> Present(Pte(mm.State(), d, e)) && Writable(Pte(mm.State(), d, e))
    ensures !ok ==> FreeSet(old(mm.State())) == {} && !Writable(Pte(old(mm.State()), d, e))
  {
    ok := true;
    ghost var m := mm.State();
    if !Writable(mm.phys[FrameOf(mm.pgDir[d])][e]) {
      ok := mm.UnWpPage(d, e);
      SameViews(m, mm.State());
    }
  }

  /** The store itself, through a writable entry. */
  method StoreThrough(mm: MemoryManager, d: int, e: int, i: int, v: Word)
    requires mm.Valid() && IsUser(d) && 0 <= e < ENTRIES && 0 <= i < ENTRIES
    requires Present(Pte(mm.State(), d, e)) && Writable(Pte(mm.State(), d, e))
    modifies mm.phys
    ensures mm.Valid() && mm.State().dir == old(mm.State()).dir
    ensures Entries(mm.State()) == WithWord(old(Entries(mm.State())), (d, e), i, v)
  {
    ghost var m := mm.State();
    PokeCorrect(m, mm.held, d, e, i, v);
    EntryOf(m, d, e);
    var page := FrameOf(mm.phys[FrameOf(mm.pgDir[d])][e]);
    mm.phys[page] := Put(mm.phys[page], i, v);
    assert mm.State() == Poke(m, d, e, i, v);
    UpdatedView(m, mm.State(), d, e, Put(Look(m, d, e).value, i, v));
  }

  /** A user store: the page fault, the write-protection fault, then the store itself. */
  method UserStore(mm: MemoryManager, d: int, e: int, i: int, v: Word) returns (ok: bool)
    requires mm.Valid() && IsUser(d) && 0 <= e < ENTRIES && 0 <= i < ENTRIES
    modifies mm, mm.memMap, mm.pgDir, mm.phys
    ensures mm.Valid() && old(mm.held) <= mm.held
    ensures forall d' :: 0 <= d' < ENTRIES && d' != d ==> mm.State().dir[d'] == old(mm.State()).dir[d']
    ensures ok ==> Entries(mm.State()) == WithWord(old(Entries(mm.State())), (d, e), i, v)
    ensures !ok ==> Entries(mm.State()) == old(Entries(mm.State())) || Entries(mm.State()) == Touched(old(Entries(mm.State())), (d, e))
    ensures !ok ==> |FreeSet(old(mm.State()))| < 2
  {
    ok := Touch(mm, d, e);
    if ok {
      ok := Unprotect(mm, d, e);
      if ok {
        StoreThrough(mm, d, e, i, v);
      }
    }
  }

  /** The part of do_exit that gives the address space back. */
  method ReleaseSpace(mm: MemoryManager, t: int, limit: nat)
    requires mm.Valid() && 1 <= t < 64 && limit <= SLOT
    modifies mm.memMap, mm.pgDir, mm.phys
    ensures mm.Valid()
    ensures forall d :: 0 <= d < ENTRIES && !(t * SLOT_DIRS <= d < t * SLOT_DIRS + Dirs(limit)) ==> mm.State().dir[d] == old(mm.State()).dir[d]
    ensures forall d :: t * SLOT_DIRS <= d < t * SLOT_DIRS + Dirs(limit) ==> !Present(mm.State().dir[d])
    ensures Entries(mm.State()) == FreeRange(old(Entries(mm.State())), t * SLOT_DIRS, Dirs(limit))
  {
    ghost var m := mm.State();
    assert t * SLOT / 0x40_0000 == t * SLOT_DIRS && t * SLOT % 0x40_0000 == 0;
    mm.FreePageTables(t * SLOT, limit);
    FreedViews(m, mm.State(), t * SLOT_DIRS, Dirs(limit));
  }

  /** A page of the kernel's own, with its contents, appears where there was none. */
  method FillAndPut(mm: MemoryManager, f: int, d: int, e: int, contents: Page) returns (ok: bool)
    requires mm.Valid() && f in mm.held && IsUser(d) && 0 <= e < ENTRIES && !Present(Pte(mm.State(), d, e)) && |contents| == ENTRIES
    modifies mm, mm.memMap, mm.pgDir, mm.phys
    ensures mm.Valid() && mm.held == if ok then old(mm.held) - {f} else old(mm.held)
    ensures forall d' :: 0 <= d' < ENTRIES && d' != d ==> mm.State().dir[d'] == old(mm.State()).dir[d']
    ensures Entries(mm.State()) == if ok then old(Entries(mm.State()))[(d, e) := contents] else old(Entries(mm.State()))
    ensures !ok ==> mm.State().dir == old(mm.State()).dir && FreeSet(old(mm.State())) == {}
  {
    ghost var m := mm.State();
    mm.Fill(f, contents);
    ghost var m1 := mm.State();
    SameViews(m, m1);
    ok := mm.PutPage(f, d, e);
    if ok {
      UpdatedView(m1, mm.State(), d, e, contents);
    }
  }
}
