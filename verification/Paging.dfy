/** The copy-on-write page store of mm/memory.c, as values.

    Physical memory is a sequence of 4 kB frames of 1024 words.  A page table is
    itself such a frame, so nothing in the types keeps a table apart from a user
    page: that separation is part of the invariant proved here.
 */
module Paging {
  import opened Sets

  /** LOW_MEM / 4096: frames below it belong to the kernel and are never counted. */
  const LOW: nat := 0x200
  /** HIGH_MEMORY / 4096 */
  const HIGH: nat := 0x800
  const PAGING_PAGES: nat := HIGH - LOW
  const ENTRIES: nat := 1024
  /** 64 Mb per task: sixteen directory entries. */
  const SLOT_DIRS: nat := 16
  /** Entries copied out of the kernel's own table by the first fork. */
  const KERNEL_ENTRIES: nat := 0xA0

  type Word = w: int | 0 <= w < 0x1_0000_0000
  type Page = seq<Word>

  datatype Option<T> = None | Some(value: T)

  datatype Mem = Mem(memMap: seq<int>, dir: seq<Word>, phys: seq<Page>)

  // ---------------------------------------------------------------- entries

  predicate Present(w: Word) { w % 2 == 1 }

  predicate Writable(w: Word) { (w / 2) % 2 == 1 }

  function FrameOf(w: Word): nat { w / 4096 }

  /** `w & ~2` */
  function ClearW(w: Word): (r: Word)
    ensures FrameOf(r) == FrameOf(w) && Present(r) == Present(w) && !Writable(r)
    ensures !Writable(w) ==> r == w
  {
    if Writable(w) then w - 2 else w
  }

  /** `w | 2` */
  function SetW(w: Word): (r: Word)
    ensures FrameOf(r) == FrameOf(w) && Present(r) == Present(w) && Writable(r)
    ensures Writable(w) ==> r == w
  {
    if Writable(w) then w else
      AddBit1(w);
      w + 2
  }

  lemma AddBit1(w: Word)
    requires !Writable(w)
    ensures w + 2 < 0x1_0000_0000 && (w + 2) / 4096 == w / 4096 && (w + 2) % 2 == w % 2
    ensures Writable(w + 2)
  {
    var q, r := w / 4, w % 4;
    assert w == 4 * q + r;
    assert w / 2 == 2 * q + r / 2;
    assert r < 2;
    assert q / 1024 == w / 4096;
    assert (w + 2) / 4 == q;
    assert (w + 2) / 4096 == q / 1024;
  }

  /** `page | 7`: present, writable, user. */
  function Entry7(f: nat): (w: Word)
    requires f < HIGH
    ensures Present(w) && Writable(w) && FrameOf(w) == f
  {
    f * 4096 + 7
  }

  function ZeroPage(): (p: Page)
    ensures |p| == ENTRIES && forall i :: 0 <= i < ENTRIES ==> p[i] == 0
  {
    seq(ENTRIES, i => 0)
  }

  // ---------------------------------------------------------------- reading the tables

  predicate Shape(m: Mem) {
    && |m.memMap| == PAGING_PAGES && |m.dir| == ENTRIES && |m.phys| == HIGH
    && forall f :: 0 <= f < HIGH ==> |m.phys[f]| == ENTRIES
  }

  predicate IsUser(d: int) { SLOT_DIRS <= d < ENTRIES }

  /** The page table entry for directory index d, table index e; 0 when there is no table. */
  function Pte(m: Mem, d: int, e: int): Word
    requires Shape(m) && 0 <= d < ENTRIES && 0 <= e < ENTRIES
  {
    if Present(m.dir[d]) && FrameOf(m.dir[d]) < HIGH then m.phys[FrameOf(m.dir[d])][e] else 0
  }

  predicate HasTable(m: Mem, d: int, f: int)
    requires Shape(m)
  {
    IsUser(d) && Present(m.dir[d]) && FrameOf(m.dir[d]) == f
  }

  predicate Maps(m: Mem, d: int, e: int, f: int)
    requires Shape(m)
  {
    IsUser(d) && 0 <= e < ENTRIES && Present(Pte(m, d, e)) && FrameOf(Pte(m, d, e)) == f
  }

  ghost function Refs(m: Mem, f: int): set<(int, int)>
    requires Shape(m)
  {
    set d: int, e: int | SLOT_DIRS <= d < ENTRIES && 0 <= e < ENTRIES && Maps(m, d, e, f) :: (d, e)
  }

  ghost function DirRefs(m: Mem, f: int): set<int>
    requires Shape(m)
  {
    set d: int | SLOT_DIRS <= d < ENTRIES && HasTable(m, d, f)
  }

  /** Positions whose contents a task can see: its own entries, and what task 0 shares by fork. */
  predicate Visible(d: int, e: int) {
    0 <= e < ENTRIES && (IsUser(d) || (d == 0 && e < KERNEL_ENTRIES))
  }

  /** What a user read at (d, e) returns, if the page is there. */
  function Look(m: Mem, d: int, e: int): Option<Page>
    requires Shape(m) && 0 <= d < ENTRIES && 0 <= e < ENTRIES
  {
    var w := Pte(m, d, e);
    if Present(w) && FrameOf(w) < HIGH then Some(m.phys[FrameOf(w)]) else None
  }

  // ---------------------------------------------------------------- the invariant

  /** Tables sit in distinct managed frames; the kernel's two tables sit in low memory. */
  ghost predicate TablesOk(m: Mem)
    requires Shape(m)
  {
    && (forall d :: 0 <= d < ENTRIES && Present(m.dir[d]) ==> d < 2 || IsUser(d))
    && (forall d :: 0 <= d < 2 && Present(m.dir[d]) ==> FrameOf(m.dir[d]) < LOW)
    && (forall d :: IsUser(d) && Present(m.dir[d]) ==> LOW <= FrameOf(m.dir[d]) < HIGH)
    && (forall d1, d2, f :: HasTable(m, d1, f) && HasTable(m, d2, f) ==> d1 == d2)
  }

  /** No mapped page is a page table or a page the kernel keeps for itself; low pages are read-only. */
  ghost predicate DataOk(m: Mem, held: set<int>)
    requires Shape(m)
  {
    && (forall d, e, f :: Maps(m, d, e, f) ==> f < HIGH && f !in held)
    && (forall d, e, f, t :: Maps(m, d, e, f) && HasTable(m, t, f) ==> false)
    && (forall d, e, f :: Maps(m, d, e, f) && f < LOW ==> !Writable(Pte(m, d, e)))
    && (forall e :: 0 <= e < KERNEL_ENTRIES && Present(Pte(m, 0, e)) ==> FrameOf(Pte(m, 0, e)) < LOW)
    && (forall f :: f in held ==> LOW <= f < HIGH)
    && (forall f, t :: f in held && HasTable(m, t, f) ==> false)
  }

  /** mem_map counts page-table entries, directory entries and kernel holds. */
  ghost predicate CountOk(m: Mem, held: set<int>)
    requires Shape(m)
  {
    forall f :: LOW <= f < HIGH ==>
      m.memMap[f - LOW] == |Refs(m, f)| + |DirRefs(m, f)| + (if f in held then 1 else 0)
  }

  /** A writable page has no second mapping, and shared pages sit at the same offset of each slot. */
  ghost predicate SharingOk(m: Mem)
    requires Shape(m)
  {
    && (forall d1, e1, d2, e2, f :: Maps(m, d1, e1, f) && Maps(m, d2, e2, f) && Writable(Pte(m, d1, e1))
          ==> d1 == d2 && e1 == e2)
    && (forall d1, e1, d2, e2, f :: LOW <= f && Maps(m, d1, e1, f) && Maps(m, d2, e2, f)
          ==> d1 % SLOT_DIRS == d2 % SLOT_DIRS && e1 == e2)
  }

  ghost predicate Inv(m: Mem, held: set<int>) {
    Shape(m) && TablesOk(m) && DataOk(m, held) && CountOk(m, held) && SharingOk(m)
  }

  /** The invariant in numbers: mem_map of a page is the number of present entries that name it, plus the number of present
      directory entries that do, plus one if the kernel keeps it; a page in several entries is read-only in all of them. */
  lemma InvLaw(m: Mem, held: set<int>, f: int)
    requires Inv(m, held) && 0x200 <= f < 0x800
    ensures m.memMap[f - 0x200] ==
      |set d: int, e: int | 16 <= d < 1024 && 0 <= e < 1024 && Pte(m, d, e) % 2 == 1 && Pte(m, d, e) / 4096 == f :: (d, e)|
      + |set d: int | 16 <= d < 1024 && m.dir[d] % 2 == 1 && m.dir[d] / 4096 == f| + (if f in held then 1 else 0)
    ensures forall d, e :: 16 <= d < 1024 && 0 <= e < 1024 && Pte(m, d, e) % 2 == 1 && Pte(m, d, e) / 4096 == f && Pte(m, d, e) / 2 % 2 == 1 ==>
      m.memMap[f - 0x200] == 1
  {
    assert Refs(m, f) == set d: int, e: int | 16 <= d < 1024 && 0 <= e < 1024 && Pte(m, d, e) % 2 == 1 && Pte(m, d, e) / 4096 == f :: (d, e);
    assert DirRefs(m, f) == set d: int | 16 <= d < 1024 && m.dir[d] % 2 == 1 && m.dir[d] / 4096 == f;
    forall d, e | 16 <= d < 1024 && 0 <= e < 1024 && Pte(m, d, e) % 2 == 1 && Pte(m, d, e) / 4096 == f && Pte(m, d, e) / 2 % 2 == 1
      ensures m.memMap[f - 0x200] == 1
    {
      SoleReference(m, held, d, e, f);
    }
  }

  lemma SoleReference(m: Mem, held: set<int>, d: int, e: int, f: int)
    requires Inv(m, held) && LOW <= f < HIGH && Maps(m, d, e, f) && Writable(Pte(m, d, e))
    ensures m.memMap[f - LOW] == 1
  {
    assert Refs(m, f) == {(d, e)};
    assert DirRefs(m, f) == {};
  }

  /** Page table words: bit 0 is present, bit 1 writable, the frame from bit 12 on. */
  lemma EntryBits(w: Word, f: nat)
    requires f < HIGH
    ensures ClearW(w) == (if w / 2 % 2 == 1 then w - 2 else w) && SetW(w) == (if w / 2 % 2 == 1 then w else w + 2)
    ensures Entry7(f) == 4096 * f + 7 && FrameOf(w) == w / 4096 && (Present(w) <==> w % 2 == 1) && (Writable(w) <==> w / 2 % 2 == 1)
  {
  }

  // ---------------------------------------------------------------- atomic updates

  function Put(p: Page, i: int, w: Word): Page
    requires 0 <= i < |p|
  {
    p[i := w]
  }

  /** Store w in entry e of the table of directory index d. */
  function SetPte(m: Mem, d: int, e: int, w: Word): Mem
    requires Shape(m) && IsUser(d) && 0 <= e < ENTRIES && Present(m.dir[d]) && FrameOf(m.dir[d]) < HIGH
  {
    var t := FrameOf(m.dir[d]);
    m.(phys := m.phys[t := Put(m.phys[t], e, w)])
  }

  function Bump(m: Mem, f: int, delta: int): Mem
    requires Shape(m) && LOW <= f < HIGH
  {
    m.(memMap := m.memMap[f - LOW := m.memMap[f - LOW] + delta])
  }

  /** get_free_page once the frame is chosen. */
  function Alloc(m: Mem, f: int): Mem
    requires Shape(m) && LOW <= f < HIGH
  {
    m.(memMap := m.memMap[f - LOW := 1], phys := m.phys[f := ZeroPage()])
  }

  function SetDir(m: Mem, d: int, w: Word): Mem
    requires Shape(m) && 0 <= d < ENTRIES
  {
    m.(dir := Put(m.dir, d, w))
  }

  /** Storing an entry changes that entry and no other, and no user page. */
  lemma SetPteEffect(m: Mem, held: set<int>, d: int, e: int, w: Word)
    requires Shape(m) && TablesOk(m) && DataOk(m, held)
    requires IsUser(d) && 0 <= e < ENTRIES && Present(m.dir[d])
    ensures var m' := SetPte(m, d, e, w);
      && Shape(m') && TablesOk(m') && m'.dir == m.dir && m'.memMap == m.memMap
      && (forall d', e' :: 0 <= d' < ENTRIES && 0 <= e' < ENTRIES ==>
            Pte(m', d', e') == if d' == d && e' == e then w else Pte(m, d', e'))
      && (forall t, f :: HasTable(m', t, f) <==> HasTable(m, t, f))
      && (forall f :: 0 <= f < HIGH && !HasTable(m, d, f) ==> m'.phys[f] == m.phys[f])
  {
    var m' := SetPte(m, d, e, w);
    var t := FrameOf(m.dir[d]);
    assert HasTable(m, d, t);
    assert forall t, f :: HasTable(m', t, f) <==> HasTable(m, t, f);
    forall d', e' | 0 <= d' < ENTRIES && 0 <= e' < ENTRIES
      ensures Pte(m', d', e') == if d' == d && e' == e then w else Pte(m, d', e')
    {
      if IsUser(d') && Present(m.dir[d']) {
        assert HasTable(m, d', FrameOf(m.dir[d']));
      }
    }
  }

  function Names(w: Word, f: int): int {
    if Present(w) && FrameOf(w) == f then 1 else 0
  }

  /** Two states that agree on every entry but (d, e) differ in references by that entry alone. */
  lemma OneEntryCounts(m: Mem, m': Mem, d: int, e: int, f: int)
    requires Shape(m) && Shape(m') && IsUser(d) && 0 <= e < ENTRIES
    requires forall d', e' :: IsUser(d') && 0 <= e' < ENTRIES && (d' != d || e' != e) ==> Pte(m', d', e') == Pte(m, d', e')
    ensures |Refs(m', f)| == |Refs(m, f)| - Names(Pte(m, d, e), f) + Names(Pte(m', d, e), f)
  {
    var rest := Refs(m, f) - {(d, e)};
    forall d', e' | IsUser(d') && 0 <= e' < ENTRIES && (d' != d || e' != e)
      ensures Maps(m', d', e', f) == Maps(m, d', e', f)
    {
    }
    assert rest == Refs(m', f) - {(d, e)};
    assert (d, e) in Refs(m, f) <==> Names(Pte(m, d, e), f) == 1;
    assert (d, e) in Refs(m', f) <==> Names(Pte(m', d, e), f) == 1;
    CardinalityWithout(Refs(m, f), (d, e));
    CardinalityWithout(Refs(m', f), (d, e));
  }

  /** Storing an entry takes one reference from the old frame and gives one to the new frame. */
  lemma SetPteCounts(m: Mem, held: set<int>, d: int, e: int, w: Word, f: int)
    requires Shape(m) && TablesOk(m) && DataOk(m, held)
    requires IsUser(d) && 0 <= e < ENTRIES && Present(m.dir[d])
    ensures Shape(SetPte(m, d, e, w)) && DirRefs(SetPte(m, d, e, w), f) == DirRefs(m, f)
    ensures |Refs(SetPte(m, d, e, w), f)| == |Refs(m, f)| - Names(Pte(m, d, e), f) + Names(w, f)
  {
    var m' := SetPte(m, d, e, w);
    SetPteEffect(m, held, d, e, w);
    OneEntryCounts(m, m', d, e, f);
    assert DirRefs(m', f) == DirRefs(m, f);
  }

  // ---------------------------------------------------------------- fork: one entry

  /** The words that sharing entry e reads and writes exist. */
  predicate Sharable(m: Mem, sd: int, dd: int, e: int)
    requires Shape(m)
  {
    && 0 <= sd < ENTRIES && IsUser(dd) && 0 <= e < ENTRIES
    && Present(m.dir[dd]) && FrameOf(m.dir[dd]) < HIGH
    && (FrameOf(Pte(m, sd, e)) >= LOW ==>
          IsUser(sd) && FrameOf(Pte(m, sd, e)) < HIGH && Present(m.dir[sd]) && FrameOf(m.dir[sd]) < HIGH)
  }

  /** The body of copy_page_tables' inner loop: entry e of table sd is shared with table dd. */
  function Share(m: Mem, sd: int, dd: int, e: int): Mem
    requires Shape(m) && Sharable(m, sd, dd, e)
  {
    var w := ClearW(Pte(m, sd, e));
    var m1 := SetPte(m, dd, e, w);
    if FrameOf(w) >= LOW then Bump(SetPte(m1, sd, e, w), FrameOf(w), 1) else m1
  }

  ghost predicate CanShare(m: Mem, held: set<int>, sd: int, dd: int, e: int) {
    && Inv(m, held)
    && Visible(sd, e) && IsUser(dd) && sd != dd && sd % SLOT_DIRS == dd % SLOT_DIRS
    && Present(m.dir[dd]) && !Present(Pte(m, dd, e)) && Present(Pte(m, sd, e))
  }

  lemma ShareEntries(m: Mem, held: set<int>, sd: int, dd: int, e: int)
    requires CanShare(m, held, sd, dd, e)
    ensures Sharable(m, sd, dd, e)
    ensures var m' := Share(m, sd, dd, e); var w := Pte(m, sd, e);
      && Shape(m') && TablesOk(m') && m'.dir == m.dir
      && (forall d', e' :: 0 <= d' < ENTRIES && 0 <= e' < ENTRIES ==>
            Pte(m', d', e') == if d' == dd && e' == e then ClearW(w)
                               else if d' == sd && e' == e && FrameOf(w) >= LOW then ClearW(w)
                               else Pte(m, d', e'))
      && (forall t, f :: HasTable(m', t, f) <==> HasTable(m, t, f))
      && (forall f :: 0 <= f < HIGH && !HasTable(m, dd, f) && !HasTable(m, sd, f) ==> m'.phys[f] == m.phys[f])
      && (forall f :: LOW <= f < HIGH ==> m'.memMap[f - LOW] == m.memMap[f - LOW] + Names(w, f))
  {
    var w := Pte(m, sd, e);
    assert IsUser(sd) ==> Maps(m, sd, e, FrameOf(w));
    var m1 := SetPte(m, dd, e, ClearW(w));
    SetPteEffect(m, held, dd, e, ClearW(w));
    if FrameOf(w) >= LOW {
      assert HasTable(m1, sd, FrameOf(m.dir[sd]));
      assert HasTable(m1, dd, FrameOf(m.dir[dd]));
    }
    assert forall t, f :: HasTable(Share(m, sd, dd, e), t, f) <==> HasTable(m, t, f);
  }

  lemma ShareInv(m: Mem, held: set<int>, sd: int, dd: int, e: int)
    requires CanShare(m, held, sd, dd, e)
    ensures Sharable(m, sd, dd, e)
    ensures Inv(Share(m, sd, dd, e), held)
  {
    var w := Pte(m, sd, e);
    ShareEntries(m, held, sd, dd, e);
    var m' := Share(m, sd, dd, e);
    assert DataOk(m', held) && SharingOk(m') by {
      forall d', e', f | Maps(m', d', e', f)
        ensures if d' == dd && e' == e then f == FrameOf(w) else Maps(m, d', e', f)
      {
      }
      assert IsUser(sd) ==> Maps(m, sd, e, FrameOf(w));
    }
    forall f | LOW <= f < HIGH
      ensures m'.memMap[f - LOW] == |Refs(m', f)| + |DirRefs(m', f)| + (if f in held then 1 else 0)
    {
      ShareCounts(m, held, sd, dd, e, f);
    }
  }

  lemma ShareCounts(m: Mem, held: set<int>, sd: int, dd: int, e: int, f: int)
    requires CanShare(m, held, sd, dd, e) && LOW <= f < HIGH
    ensures Sharable(m, sd, dd, e) && Shape(Share(m, sd, dd, e))
    ensures var m' := Share(m, sd, dd, e); m'.memMap[f - LOW] == |Refs(m', f)| + |DirRefs(m', f)| + (if f in held then 1 else 0)
  {
    var w := Pte(m, sd, e);
    ShareEntries(m, held, sd, dd, e);
    var m' := Share(m, sd, dd, e);
    var m1 := SetPte(m, dd, e, ClearW(w));
    SetPteEffect(m, held, dd, e, ClearW(w));
    SetPteCounts(m, held, dd, e, ClearW(w), f);
    if IsUser(sd) {
      OneEntryCounts(m1, m', sd, e, f);
    } else {
      assert Refs(m1, f) == Refs(m', f);
    }
    assert DirRefs(m', f) == DirRefs(m, f);
  }

  /** Fork shares one page: the child reads what the parent reads, and nobody else sees a change. */
  lemma ShareLook(m: Mem, held: set<int>, sd: int, dd: int, e: int)
    requires CanShare(m, held, sd, dd, e)
    ensures Sharable(m, sd, dd, e)
    ensures Shape(Share(m, sd, dd, e)) && Look(Share(m, sd, dd, e), dd, e) == Look(m, sd, e)
    ensures forall d', e' :: Visible(d', e') && (d' != dd || e' != e)
              ==> Look(Share(m, sd, dd, e), d', e') == Look(m, d', e')
  {
    ShareEntries(m, held, sd, dd, e);
    var m' := Share(m, sd, dd, e);
    assert IsUser(sd) ==> Maps(m, sd, e, FrameOf(Pte(m, sd, e)));
    forall d', e' | Visible(d', e') && (d' != dd || e' != e)
      ensures Look(m', d', e') == Look(m, d', e')
    {
      assert IsUser(d') && Present(Pte(m, d', e')) ==> Maps(m, d', e', FrameOf(Pte(m, d', e')));
    }
  }

  // ---------------------------------------------------------------- other single-entry updates

  /** m' is m with entry (d, e) replaced by w; pages other than `page` keep their contents. */
  ghost predicate Stored(m: Mem, m': Mem, d: int, e: int, w: Word, page: int)
    requires Shape(m) && Shape(m')
  {
    && IsUser(d) && 0 <= e < ENTRIES && m'.dir == m.dir
    && (forall d', e' :: 0 <= d' < ENTRIES && 0 <= e' < ENTRIES ==>
          Pte(m', d', e') == if d' == d && e' == e then w else Pte(m, d', e'))
    && (forall f :: 0 <= f < HIGH && f != page && !HasTable(m, d, f) ==> m'.phys[f] == m.phys[f])
  }

  /** An entry may be stored if it keeps pages and tables apart and a writable page private. */
  ghost predicate Storable(m: Mem, held: set<int>, d: int, e: int, w: Word)
    requires Shape(m)
  {
    Present(w) ==>
      && FrameOf(w) < HIGH && FrameOf(w) !in held
      && (forall t :: !HasTable(m, t, FrameOf(w)))
      && (FrameOf(w) < LOW ==> !Writable(w))
      && (forall d', e' :: Maps(m, d', e', FrameOf(w)) && (d' != d || e' != e) ==>
            && !Writable(w) && !Writable(Pte(m, d', e'))
            && d' % SLOT_DIRS == d % SLOT_DIRS && e' == e)
  }

  lemma StoredInv(m: Mem, held: set<int>, m': Mem, held': set<int>, d: int, e: int, w: Word, page: int)
    requires Inv(m, held) && Shape(m') && Stored(m, m', d, e, w, page) && Storable(m, held', d, e, w)
    requires held' <= held
    requires forall f :: LOW <= f < HIGH ==>
               m'.memMap[f - LOW] ==
                 m.memMap[f - LOW] - Names(Pte(m, d, e), f) + Names(w, f) - (if f in held - held' then 1 else 0)
    ensures Inv(m', held')
  {
    assert forall t, f :: HasTable(m', t, f) <==> HasTable(m, t, f);
    forall d', e', f | Maps(m', d', e', f)
      ensures if d' == d && e' == e then Present(w) && f == FrameOf(w) else Maps(m, d', e', f)
    {
    }
    forall f | LOW <= f < HIGH
      ensures m'.memMap[f - LOW] == |Refs(m', f)| + |DirRefs(m', f)| + (if f in held' then 1 else 0)
    {
      OneEntryCounts(m, m', d, e, f);
      assert DirRefs(m', f) == DirRefs(m, f);
    }
  }

  /** Storing an entry, and filling a page that nobody maps, is invisible everywhere else. */
  lemma StoredLook(m: Mem, held: set<int>, m': Mem, d: int, e: int, w: Word, page: int)
    requires Inv(m, held) && Shape(m') && Stored(m, m', d, e, w, page)
    requires LOW <= page && (forall d', e' :: Maps(m, d', e', page) ==> d' == d && e' == e)
    ensures forall d', e' :: Visible(d', e') && (d' != d || e' != e) ==> Look(m', d', e') == Look(m, d', e')
  {
    forall d', e' | Visible(d', e') && (d' != d || e' != e)
      ensures Look(m', d', e') == Look(m, d', e')
    {
      if IsUser(d') && Present(Pte(m, d', e')) {
        assert Maps(m, d', e', FrameOf(Pte(m, d', e')));
      }
    }
  }

  /** free_page: one reference less, for managed pages only. */
  function Release(m: Mem, f: int): Mem
    requires Shape(m) && 0 <= f < HIGH
  {
    if f < LOW then m else Bump(m, f, -1)
  }

  /** free_page_tables on one entry. */
  function Drop(m: Mem, d: int, e: int): Mem
    requires Shape(m) && IsUser(d) && 0 <= e < ENTRIES && Present(m.dir[d]) && FrameOf(m.dir[d]) < HIGH
    requires Present(Pte(m, d, e)) ==> FrameOf(Pte(m, d, e)) < HIGH
  {
    var w := Pte(m, d, e);
    SetPte(if Present(w) then Release(m, FrameOf(w)) else m, d, e, 0)
  }

  /** The "trying to free free page" panic cannot be reached from an entry or a table. */
  lemma ReferencedIsCounted(m: Mem, held: set<int>, d: int, e: int)
    requires Inv(m, held) && IsUser(d) && Present(m.dir[d]) && 0 <= e < ENTRIES
    ensures LOW <= FrameOf(m.dir[d]) < HIGH && m.memMap[FrameOf(m.dir[d]) - LOW] >= 1
    ensures Present(Pte(m, d, e)) ==> FrameOf(Pte(m, d, e)) < HIGH
    ensures Present(Pte(m, d, e)) && FrameOf(Pte(m, d, e)) >= LOW ==> m.memMap[FrameOf(Pte(m, d, e)) - LOW] >= 1
  {
    var t := FrameOf(m.dir[d]);
    assert HasTable(m, d, t) && d in DirRefs(m, t);
    if Present(Pte(m, d, e)) {
      var f := FrameOf(Pte(m, d, e));
      assert Maps(m, d, e, f) && (d, e) in Refs(m, f);
    }
  }

  lemma DropCorrect(m: Mem, held: set<int>, d: int, e: int)
    requires Inv(m, held) && IsUser(d) && 0 <= e < ENTRIES && Present(m.dir[d])
    ensures FrameOf(m.dir[d]) < HIGH && (Present(Pte(m, d, e)) ==> FrameOf(Pte(m, d, e)) < HIGH)
    ensures var m' := Drop(m, d, e);
      && Inv(m', held) && m'.dir == m.dir && Pte(m', d, e) == 0
      && (forall d', e' :: 0 <= d' < ENTRIES && 0 <= e' < ENTRIES && (d' != d || e' != e) ==> Pte(m', d', e') == Pte(m, d', e'))
      && (forall d', e' :: Visible(d', e') && (d' != d || e' != e) ==> Look(m', d', e') == Look(m, d', e'))
  {
    ReferencedIsCounted(m, held, d, e);
    var m' := Drop(m, d, e);
    var w := Pte(m, d, e);
    var m1 := if Present(w) then Release(m, FrameOf(w)) else m;
    assert TablesOk(m1) && DataOk(m1, held) by {
      assert forall t, f :: HasTable(m1, t, f) <==> HasTable(m, t, f);
      assert forall d', e' :: 0 <= d' < ENTRIES && 0 <= e' < ENTRIES ==> Pte(m1, d', e') == Pte(m, d', e');
      assert forall d', e', f :: Maps(m1, d', e', f) <==> Maps(m, d', e', f);
    }
    SetPteEffect(m1, held, d, e, 0);
    assert Stored(m, m', d, e, 0, HIGH);
    StoredInv(m, held, m', held, d, e, 0, HIGH);
    StoredLook(m, held, m', d, e, 0, HIGH);
  }

  // ---------------------------------------------------------------- frames and tables

  /** A frame with count 0 is not mapped, not a table and not held. */
  lemma FreeIsUnused(m: Mem, held: set<int>, f: int)
    requires Inv(m, held) && LOW <= f < HIGH && m.memMap[f - LOW] == 0
    ensures f !in held
    ensures forall d, e :: !Maps(m, d, e, f)
    ensures forall t :: !HasTable(m, t, f)
  {
    assert Refs(m, f) == {} && DirRefs(m, f) == {};
    forall d, e
      ensures !Maps(m, d, e, f)
    {
      assert (d, e) in Refs(m, f) <==> Maps(m, d, e, f);
    }
    forall t
      ensures !HasTable(m, t, f)
    {
      assert t in DirRefs(m, f) <==> HasTable(m, t, f);
    }
  }

  lemma AllocCorrect(m: Mem, held: set<int>, f: int)
    requires Inv(m, held) && LOW <= f < HIGH && m.memMap[f - LOW] == 0
    ensures var m' := Alloc(m, f);
      && Inv(m', held + {f}) && f !in held && m'.phys[f] == ZeroPage()
      && (forall d', e' :: 0 <= d' < ENTRIES && 0 <= e' < ENTRIES ==> Pte(m', d', e') == Pte(m, d', e'))
      && (forall d', e' :: Visible(d', e') ==> Look(m', d', e') == Look(m, d', e'))
  {
    FreeIsUnused(m, held, f);
    var m' := Alloc(m, f);
    forall d', e' | 0 <= d' < ENTRIES && 0 <= e' < ENTRIES
      ensures Pte(m', d', e') == Pte(m, d', e')
    {
      if IsUser(d') && Present(m.dir[d']) {
        assert HasTable(m, d', FrameOf(m.dir[d']));
      }
    }
    assert forall t, g :: HasTable(m', t, g) <==> HasTable(m, t, g);
    assert forall d', e', g :: Maps(m', d', e', g) <==> Maps(m, d', e', g);
    forall g | LOW <= g < HIGH
      ensures Refs(m', g) == Refs(m, g) && DirRefs(m', g) == DirRefs(m, g)
    {
    }
    assert Refs(m, f) == {} && DirRefs(m, f) == {};
    forall d', e' | Visible(d', e')
      ensures Look(m', d', e') == Look(m, d', e')
    {
      if IsUser(d') && Present(Pte(m, d', e')) {
        assert Maps(m, d', e', FrameOf(Pte(m, d', e')));
      }
    }
  }

  /** Every mapping and every user page is as before. */
  ghost predicate SameEntries(m: Mem, m': Mem)
    requires Shape(m) && Shape(m')
  {
    && (forall d, e :: 0 <= d < ENTRIES && 0 <= e < ENTRIES ==> Present(Pte(m', d, e)) == Present(Pte(m, d, e)))
    && (forall d, e :: 0 <= d < ENTRIES && 0 <= e < ENTRIES && Present(Pte(m, d, e)) ==> Pte(m', d, e) == Pte(m, d, e))
    && (forall d, e :: Visible(d, e) ==> Look(m', d, e) == Look(m, d, e))
  }

  lemma AttachEntries(m: Mem, held: set<int>, d: int, f: int)
    requires Inv(m, held) && IsUser(d) && !Present(m.dir[d]) && f in held && f < HIGH && m.phys[f] == ZeroPage()
    ensures var m' := SetDir(m, d, Entry7(f));
      && Shape(m') && SameEntries(m, m') && (forall e :: 0 <= e < ENTRIES ==> Pte(m', d, e) == 0)
      && (forall t, g :: HasTable(m', t, g) <==> HasTable(m, t, g) || (t == d && g == f))
      && (forall d', e', g :: Maps(m', d', e', g) <==> Maps(m, d', e', g))
  {
    var m' := SetDir(m, d, Entry7(f));
    assert forall d', e' :: 0 <= d' < ENTRIES && 0 <= e' < ENTRIES ==> Pte(m', d', e') == Pte(m, d', e');
  }

  /** A zeroed page held by the kernel becomes the page table of directory index d. */
  lemma AttachTable(m: Mem, held: set<int>, d: int, f: int)
    requires Inv(m, held) && IsUser(d) && !Present(m.dir[d]) && f in held && f < HIGH && m.phys[f] == ZeroPage()
    ensures var m' := SetDir(m, d, Entry7(f));
      Inv(m', held - {f}) && SameEntries(m, m') && forall e :: 0 <= e < ENTRIES ==> Pte(m', d, e) == 0
  {
    var m' := SetDir(m, d, Entry7(f));
    AttachEntries(m, held, d, f);
    forall g | LOW <= g < HIGH
      ensures m'.memMap[g - LOW] == |Refs(m', g)| + |DirRefs(m', g)| + (if g in held - {f} then 1 else 0)
    {
      assert Refs(m', g) == Refs(m, g);
      assert DirRefs(m', g) == if g == f then DirRefs(m, g) + {d} else DirRefs(m, g);
    }
  }

  /** free_page_tables once a table is empty. */
  function DetachTable(m: Mem, d: int): Mem
    requires Shape(m) && IsUser(d) && FrameOf(m.dir[d]) < HIGH
  {
    SetDir(Release(m, FrameOf(m.dir[d])), d, 0)
  }

  lemma DetachEntries(m: Mem, held: set<int>, d: int)
    requires Inv(m, held) && IsUser(d) && Present(m.dir[d])
    requires forall e :: 0 <= e < ENTRIES ==> !Present(Pte(m, d, e))
    ensures FrameOf(m.dir[d]) < HIGH && Shape(DetachTable(m, d)) && SameEntries(m, DetachTable(m, d))
    ensures forall t, g :: HasTable(DetachTable(m, d), t, g) <==> HasTable(m, t, g) && t != d
    ensures forall d', e', g :: Maps(DetachTable(m, d), d', e', g) <==> Maps(m, d', e', g)
  {
    var m' := DetachTable(m, d);
    forall d', e' | 0 <= d' < ENTRIES && 0 <= e' < ENTRIES && d' != d
      ensures Pte(m', d', e') == Pte(m, d', e')
    {
    }
  }

  lemma DetachCounts(m: Mem, held: set<int>, d: int)
    requires Inv(m, held) && IsUser(d) && Present(m.dir[d])
    requires forall e :: 0 <= e < ENTRIES ==> !Present(Pte(m, d, e))
    ensures FrameOf(m.dir[d]) < HIGH && Shape(DetachTable(m, d)) && CountOk(DetachTable(m, d), held)
  {
    var m' := DetachTable(m, d);
    DetachEntries(m, held, d);
    var t := FrameOf(m.dir[d]);
    forall g | LOW <= g < HIGH
      ensures m'.memMap[g - LOW] == |Refs(m', g)| + |DirRefs(m', g)| + (if g in held then 1 else 0)
    {
      assert Refs(m', g) == Refs(m, g);
      CardinalityWithout(DirRefs(m, g), d);
      assert DirRefs(m', g) == DirRefs(m, g) - {d};
      assert d in DirRefs(m, g) <==> g == t;
    }
  }

  /** An emptied page table is given back. */
  lemma DropTable(m: Mem, held: set<int>, d: int)
    requires Inv(m, held) && IsUser(d) && Present(m.dir[d])
    requires forall e :: 0 <= e < ENTRIES ==> !Present(Pte(m, d, e))
    ensures FrameOf(m.dir[d]) < HIGH && Inv(DetachTable(m, d), held)
    ensures SameEntries(m, DetachTable(m, d))
  {
    var m' := DetachTable(m, d);
    DetachEntries(m, held, d);
    DetachCounts(m, held, d);
    assert TablesOk(m') && DataOk(m', held);
  }

  /** A page kept by the kernel is given back. */
  lemma ReleaseHeld(m: Mem, held: set<int>, f: int)
    requires Inv(m, held) && f in held && f < HIGH
    ensures m.memMap[f - LOW] == 1
    ensures Inv(Release(m, f), held - {f}) && SameEntries(m, Release(m, f))
  {
    var m' := Release(m, f);
    assert forall d', e' :: 0 <= d' < ENTRIES && 0 <= e' < ENTRIES ==> Pte(m', d', e') == Pte(m, d', e');
    assert forall t, g :: HasTable(m', t, g) <==> HasTable(m, t, g);
    assert forall d', e', g :: Maps(m', d', e', g) <==> Maps(m, d', e', g);
    assert Refs(m, f) == {} && DirRefs(m, f) == {};
    forall g | LOW <= g < HIGH
      ensures Refs(m', g) == Refs(m, g) && DirRefs(m', g) == DirRefs(m, g)
    {
    }
  }

  /** What the kernel writes into a page it keeps for itself. */
  function Scribble(m: Mem, f: int, contents: Page): Mem
    requires Shape(m) && 0 <= f < HIGH
  {
    m.(phys := m.phys[f := contents])
  }

  /** Nobody sees it. */
  lemma ScribbleUnseen(m: Mem, held: set<int>, f: int, contents: Page)
    requires Inv(m, held) && f in held && f < HIGH && |contents| == ENTRIES
    ensures Inv(Scribble(m, f, contents), held) && SameEntries(m, Scribble(m, f, contents))
  {
    var m' := Scribble(m, f, contents);
    forall d', e' | 0 <= d' < ENTRIES && 0 <= e' < ENTRIES
      ensures Pte(m', d', e') == Pte(m, d', e')
    {
      if IsUser(d') && Present(m.dir[d']) {
        assert HasTable(m, d', FrameOf(m.dir[d']));
      }
    }
    assert forall t, g :: HasTable(m', t, g) <==> HasTable(m, t, g);
    assert forall d', e', g :: Maps(m', d', e', g) <==> Maps(m, d', e', g);
    forall g | LOW <= g < HIGH
      ensures Refs(m', g) == Refs(m, g) && DirRefs(m', g) == DirRefs(m, g)
    {
    }
    forall d', e' | Visible(d', e')
      ensures Look(m', d', e') == Look(m, d', e')
    {
      if IsUser(d') && Present(Pte(m, d', e')) {
        assert Maps(m, d', e', FrameOf(Pte(m, d', e')));
      }
    }
  }

  // ---------------------------------------------------------------- page faults

  /** put_page on a present table: a held page becomes visible, writable and private. */
  lemma MapHeld(m: Mem, held: set<int>, d: int, e: int, f: int)
    requires Inv(m, held) && IsUser(d) && 0 <= e < ENTRIES && Present(m.dir[d])
    requires !Present(Pte(m, d, e)) && f in held && f < HIGH
    ensures FrameOf(m.dir[d]) < HIGH
    ensures var m' := SetPte(m, d, e, Entry7(f));
      && Inv(m', held - {f}) && m'.dir == m.dir && Pte(m', d, e) == Entry7(f)
      && Look(m', d, e) == Some(m.phys[f])
      && (forall d', e' :: Visible(d', e') && (d' != d || e' != e) ==> Look(m', d', e') == Look(m, d', e'))
  {
    var m' := SetPte(m, d, e, Entry7(f));
    SetPteEffect(m, held, d, e, Entry7(f));
    assert Stored(m, m', d, e, Entry7(f), HIGH);
    StoredInv(m, held, m', held - {f}, d, e, Entry7(f), HIGH);
    StoredLook(m, held, m', d, e, Entry7(f), HIGH);
    assert !HasTable(m, d, f);
  }

  /** A count of one means that the faulting entry is the page's only reference. */
  lemma CountOneIsPrivate(m: Mem, held: set<int>, d: int, e: int, f: int)
    requires Inv(m, held) && Maps(m, d, e, f) && LOW <= f < HIGH
    ensures m.memMap[f - LOW] == 1 <==> forall d', e' :: Maps(m, d', e', f) ==> d' == d && e' == e
  {
    assert (d, e) in Refs(m, f);
    CardinalityWithout(Refs(m, f), (d, e));
    assert DirRefs(m, f) == {};
    if m.memMap[f - LOW] == 1 {
      assert Refs(m, f) - {(d, e)} == {};
      forall d', e' | Maps(m, d', e', f)
        ensures d' == d && e' == e
      {
        assert (d', e') in Refs(m, f);
      }
    } else {
      assert Refs(m, f) - {(d, e)} != {};
      var x :| x in Refs(m, f) - {(d, e)};
      assert Maps(m, x.0, x.1, f);
    }
  }

  /** Every writable user mapping is of a managed page whose count is exactly one. */
  lemma WritableIsPrivate(m: Mem, held: set<int>, d: int, e: int)
    requires Inv(m, held) && IsUser(d) && 0 <= e < ENTRIES && Present(Pte(m, d, e)) && Writable(Pte(m, d, e))
    ensures LOW <= FrameOf(Pte(m, d, e)) < HIGH && m.memMap[FrameOf(Pte(m, d, e)) - LOW] == 1
  {
    var f := FrameOf(Pte(m, d, e));
    assert Maps(m, d, e, f);
    CountOneIsPrivate(m, held, d, e, f);
  }

  /** un_wp_page, first branch: the last reader of a page may simply write to it again. */
  lemma EnableWrite(m: Mem, held: set<int>, d: int, e: int)
    requires Inv(m, held) && IsUser(d) && 0 <= e < ENTRIES && Present(m.dir[d]) && Present(Pte(m, d, e))
    requires LOW <= FrameOf(Pte(m, d, e)) < HIGH && m.memMap[FrameOf(Pte(m, d, e)) - LOW] == 1
    ensures FrameOf(m.dir[d]) < HIGH
    ensures var m' := SetPte(m, d, e, SetW(Pte(m, d, e)));
      && Inv(m', held) && m'.dir == m.dir && Writable(Pte(m', d, e)) && Present(Pte(m', d, e))
      && (forall d', e' :: Visible(d', e') ==> Look(m', d', e') == Look(m, d', e'))
  {
    var w := Pte(m, d, e);
    assert Maps(m, d, e, FrameOf(w));
    CountOneIsPrivate(m, held, d, e, FrameOf(w));
    var m' := SetPte(m, d, e, SetW(w));
    SetPteEffect(m, held, d, e, SetW(w));
    assert Stored(m, m', d, e, SetW(w), HIGH);
    StoredInv(m, held, m', held, d, e, SetW(w), HIGH);
    StoredLook(m, held, m', d, e, SetW(w), HIGH);
  }

  /** un_wp_page, second branch: f is the page just obtained. */
  function CopyOnWrite(m: Mem, d: int, e: int, f: int): Mem
    requires Shape(m) && IsUser(d) && 0 <= e < ENTRIES && Present(m.dir[d]) && FrameOf(m.dir[d]) < HIGH
    requires LOW <= f < HIGH && FrameOf(Pte(m, d, e)) < HIGH
  {
    var old_page := FrameOf(Pte(m, d, e));
    var m1 := SetPte(Release(m, old_page), d, e, Entry7(f));
    m1.(phys := m1.phys[f := m1.phys[old_page]])
  }

  lemma CopyOnWriteStored(m: Mem, held: set<int>, d: int, e: int, f: int)
    requires Inv(m, held) && IsUser(d) && 0 <= e < ENTRIES && Present(m.dir[d]) && Present(Pte(m, d, e))
    requires f in held && LOW <= f < HIGH
    ensures FrameOf(m.dir[d]) < HIGH && FrameOf(Pte(m, d, e)) < HIGH
    ensures Shape(CopyOnWrite(m, d, e, f)) && Stored(m, CopyOnWrite(m, d, e, f), d, e, Entry7(f), f)
    ensures CopyOnWrite(m, d, e, f).phys[f] == m.phys[FrameOf(Pte(m, d, e))]
  {
    var w := Pte(m, d, e);
    assert Maps(m, d, e, FrameOf(w));
    var m1 := Release(m, FrameOf(w));
    assert TablesOk(m1) && DataOk(m1, held) by {
      assert forall t, f :: HasTable(m1, t, f) <==> HasTable(m, t, f);
      assert forall d', e' :: 0 <= d' < ENTRIES && 0 <= e' < ENTRIES ==> Pte(m1, d', e') == Pte(m, d', e');
      assert forall d', e', f :: Maps(m1, d', e', f) <==> Maps(m, d', e', f);
    }
    var m2 := SetPte(m1, d, e, Entry7(f));
    SetPteEffect(m1, held, d, e, Entry7(f));
    var m' := CopyOnWrite(m, d, e, f);
    forall d', e' | 0 <= d' < ENTRIES && 0 <= e' < ENTRIES
      ensures Pte(m', d', e') == Pte(m2, d', e')
    {
      if IsUser(d') && Present(m.dir[d']) {
        assert HasTable(m, d', FrameOf(m.dir[d']));
      }
    }
  }

  lemma CopyOnWriteCorrect(m: Mem, held: set<int>, d: int, e: int, f: int)
    requires Inv(m, held) && IsUser(d) && 0 <= e < ENTRIES && Present(m.dir[d]) && Present(Pte(m, d, e))
    requires f in held && LOW <= f < HIGH
    ensures FrameOf(m.dir[d]) < HIGH && FrameOf(Pte(m, d, e)) < HIGH
    ensures var m' := CopyOnWrite(m, d, e, f);
      && Inv(m', held - {f}) && m'.dir == m.dir && Writable(Pte(m', d, e)) && Present(Pte(m', d, e))
      && (forall d', e' :: 0 <= d' < ENTRIES && 0 <= e' < ENTRIES && (d' != d || e' != e) ==> Pte(m', d', e') == Pte(m, d', e'))
      && (forall d', e' :: Visible(d', e') ==> Look(m', d', e') == Look(m, d', e'))
  {
    CopyOnWriteStored(m, held, d, e, f);
    var m' := CopyOnWrite(m, d, e, f);
    assert Maps(m, d, e, FrameOf(Pte(m, d, e)));
    StoredInv(m, held, m', held - {f}, d, e, Entry7(f), f);
    StoredLook(m, held, m', d, e, Entry7(f), f);
  }

  /** A user store through a writable entry. */
  function Poke(m: Mem, d: int, e: int, i: int, v: Word): Mem
    requires Shape(m) && IsUser(d) && 0 <= e < ENTRIES && 0 <= i < ENTRIES && FrameOf(Pte(m, d, e)) < HIGH
  {
    var f := FrameOf(Pte(m, d, e));
    m.(phys := m.phys[f := Put(m.phys[f], i, v)])
  }

  /** A user store never reaches a page table, and never reaches another address space. */
  lemma PokeCorrect(m: Mem, held: set<int>, d: int, e: int, i: int, v: Word)
    requires Inv(m, held) && IsUser(d) && 0 <= e < ENTRIES && 0 <= i < ENTRIES
    requires Present(Pte(m, d, e)) && Writable(Pte(m, d, e))
    ensures FrameOf(Pte(m, d, e)) < HIGH
    ensures var m' := Poke(m, d, e, i, v);
      && Inv(m', held) && m'.dir == m.dir && Look(m, d, e).Some?
      && (forall d', e' :: 0 <= d' < ENTRIES && 0 <= e' < ENTRIES ==> Pte(m', d', e') == Pte(m, d', e'))
      && |Look(m, d, e).value| == ENTRIES && Look(m', d, e) == Some(Put(Look(m, d, e).value, i, v))
      && (forall d', e' :: Visible(d', e') && (d' != d || e' != e) ==> Look(m', d', e') == Look(m, d', e'))
  {
    var f := FrameOf(Pte(m, d, e));
    assert Maps(m, d, e, f);
    var m' := Poke(m, d, e, i, v);
    forall d', e' | 0 <= d' < ENTRIES && 0 <= e' < ENTRIES
      ensures Pte(m', d', e') == Pte(m, d', e')
    {
      if IsUser(d') && Present(m.dir[d']) {
        assert HasTable(m, d', FrameOf(m.dir[d']));
      }
    }
    assert forall t, g :: HasTable(m', t, g) <==> HasTable(m, t, g);
    assert forall d', e', g :: Maps(m', d', e', g) <==> Maps(m, d', e', g);
    forall g | LOW <= g < HIGH
      ensures Refs(m', g) == Refs(m, g) && DirRefs(m', g) == DirRefs(m, g)
    {
    }
    forall d', e' | Visible(d', e') && (d' != d || e' != e)
      ensures Look(m', d', e') == Look(m, d', e')
    {
      if IsUser(d') && Present(Pte(m, d', e')) {
        assert Maps(m, d', e', FrameOf(Pte(m, d', e')));
      }
    }
  }

  // ---------------------------------------------------------------- consequences

  /** mem_map is a function of who refers to what: equal references, equal counts. */
  lemma CountsDetermined(m: Mem, m': Mem, held: set<int>)
    requires Inv(m, held) && Inv(m', held)
    requires forall t, f :: HasTable(m, t, f) <==> HasTable(m', t, f)
    requires forall d, e, f :: Maps(m, d, e, f) <==> Maps(m', d, e, f)
    ensures m'.memMap == m.memMap
  {
    forall i | 0 <= i < PAGING_PAGES
      ensures m'.memMap[i] == m.memMap[i]
    {
      var f := i + LOW;
      assert Refs(m', f) == Refs(m, f) && DirRefs(m', f) == DirRefs(m, f);
      assert m.memMap[f - LOW] == |Refs(m, f)| + |DirRefs(m, f)| + (if f in held then 1 else 0);
    }
  }

  /** The entries at offset (r, e) of slots 1 .. k-1. */
  ghost function Column(r: int, e: int, k: nat): (c: set<(int, int)>)
    ensures |c| <= k
    ensures forall s :: 1 <= s <= k ==> (SLOT_DIRS * s + r, e) in c
  {
    if k == 0 then {} else Column(r, e, k - 1) + {(SLOT_DIRS * k + r, e)}
  }

  /** At most one reference per task slot: the 16-bit counters of mem_map cannot wrap. */
  lemma CountBounded(m: Mem, held: set<int>, f: int)
    requires Inv(m, held) && LOW <= f < HIGH
    ensures 0 <= m.memMap[f - LOW] <= 63
  {
    if Refs(m, f) == {} {
      SingleTable(m, held, f);
    } else {
      var x :| x in Refs(m, f);
      var r, e := x.0 % SLOT_DIRS, x.1;
      assert Maps(m, x.0, x.1, f);
      var c := Column(r, e, 63);
      forall y | y in Refs(m, f)
        ensures y in c
      {
        assert Maps(m, y.0, y.1, f);
        assert y.0 == SLOT_DIRS * (y.0 / SLOT_DIRS) + r;
      }
      SubsetCardinality(Refs(m, f), c);
      assert DirRefs(m, f) == {};
    }
  }

  lemma SingleTable(m: Mem, held: set<int>, f: int)
    requires Inv(m, held)
    ensures |DirRefs(m, f)| <= 1
    ensures f in held ==> DirRefs(m, f) == {}
  {
    if d :| d in DirRefs(m, f) {
      assert HasTable(m, d, f);
      assert DirRefs(m, f) == {d};
    }
  }

  /** `this_page > LOW_MEM` on a whole present entry asks whether its page is managed. */
  lemma AboveLow(w: Word)
    requires Present(w)
    ensures w > LOW * 4096 <==> FrameOf(w) >= LOW
  {
  }
}
