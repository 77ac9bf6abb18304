/** create_tables of fs/exec.c: argv and envp of the new program, built from the packed strings. */
module ExecTables {

  import opened Bytes
  import opened ExecArgs

  /** User memory; what was never stored reads as zero. */
  type Memory = map<int, Byte>

  function Load(m: Memory, a: int): Byte { if a in m then m[a] else 0 }

  function LoadLong(m: Memory, a: int): int {
    Load(m, a) as int + 256 * (Load(m, a + 1) as int) + 65536 * (Load(m, a + 2) as int) + 16777216 * (Load(m, a + 3) as int)
  }

  function StoreLong(m: Memory, a: int, v: int): Memory
    requires 0 <= v < 0x1_0000_0000
  {
    m[a := (v % 256) as Byte][a + 1 := (v / 256 % 256) as Byte][a + 2 := (v / 65536 % 256) as Byte][a + 3 := (v / 16777216) as Byte]
  }

  /** m' differs from m at most in [lo, hi). */
  ghost predicate Outside(m: Memory, m': Memory, lo: int, hi: int) {
    forall a :: a < lo || hi <= a ==> Load(m', a) == Load(m, a)
  }

  lemma OutsideBoth(m: Memory, m': Memory, m'': Memory, lo: int, mid: int, hi: int)
    requires lo <= mid <= hi && Outside(m, m', lo, mid) && Outside(m', m'', mid, hi)
    ensures Outside(m, m'', lo, hi)
  {
  }

  lemma StoreLongLoads(m: Memory, a: int, v: int)
    requires 0 <= v < 0x1_0000_0000
    ensures LoadLong(StoreLong(m, a, v), a) == v && Outside(m, StoreLong(m, a, v), a, a + 4)
  {
  }

  lemma LongOutside(m: Memory, m': Memory, lo: int, hi: int, a: int)
    requires Outside(m, m', lo, hi) && (a + 4 <= lo || hi <= a)
    ensures LoadLong(m', a) == LoadLong(m, a)
  {
  }

  ghost predicate Holds(m: Memory, a: int, bytes: seq<Byte>) {
    forall k :: 0 <= k < |bytes| ==> Load(m, a + k) == bytes[k]
  }

  /** The string that a program finds at a. */
  ghost predicate Names(m: Memory, a: int, s: CString) { Holds(m, a, s + [0]) }

  predicate NonZero(m: Memory, a: int, k: int) { Load(m, a + k) != 0 }

  /** The string ends at its first zero. */
  lemma Length(m: Memory, a: int, s: CString)
    requires Names(m, a, s)
    ensures !NonZero(m, a, |s|) && forall k :: 0 <= k < |s| ==> NonZero(m, a, k)
  {
    assert (s + [0])[|s|] == 0;
    forall k | 0 <= k < |s|
      ensures NonZero(m, a, k)
    {
      assert (s + [0])[k] == s[k] && s[k] in s;
    }
  }

  /** An address names one string. */
  lemma NamesOne(m: Memory, a: int, s: CString, t: CString)
    requires Names(m, a, s) && Names(m, a, t)
    ensures s == t
  {
    Length(m, a, s);
    Length(m, a, t);
    assert forall k :: 0 <= k < |s| ==> s[k] == (s + [0])[k] == Load(m, a + k) == (t + [0])[k];
  }

  /** Entry i of the table at a points at or above lo, to s. */
  ghost predicate Entry(m: Memory, a: int, i: int, lo: int, s: CString) {
    lo <= LoadLong(m, a + 4 * i) && Names(m, LoadLong(m, a + 4 * i), s)
  }

  /** A vector of pointers at a that name the strings in order, with a null pointer after the last. */
  ghost predicate Vector(m: Memory, a: int, lo: int, ss: seq<CString>) {
    (forall i :: 0 <= i < |ss| ==> Entry(m, a, i, lo, ss[i])) && LoadLong(m, a + 4 * |ss|) == 0
  }

  /** Stores below lo and beside the table do not disturb an entry. */
  lemma EntryKept(m: Memory, m': Memory, a: int, i: int, lo: int, s: CString, from: int, to: int)
    requires Entry(m, a, i, lo, s) && Outside(m, m', from, to) && to <= lo && (a + 4 * i + 4 <= from || to <= a + 4 * i)
    ensures Entry(m', a, i, lo, s)
  {
    LongOutside(m, m', from, to, a + 4 * i);
    HoldsOutside(m, m', from, to, LoadLong(m, a + 4 * i), s + [0]);
  }

  lemma EntriesKept(m: Memory, m': Memory, a: int, n: nat, lo: int, ss: seq<CString>, from: int, to: int)
    requires n <= |ss| && (forall i :: 0 <= i < n ==> Entry(m, a, i, lo, ss[i]))
    requires Outside(m, m', from, to) && to <= lo && (a + 4 * n <= from || to <= a)
    ensures forall i :: 0 <= i < n ==> Entry(m', a, i, lo, ss[i])
  {
    forall i | 0 <= i < n
      ensures Entry(m', a, i, lo, ss[i])
    {
      EntryKept(m, m', a, i, lo, ss[i], from, to);
    }
  }

  lemma HoldsSplit(m: Memory, a: int, x: seq<Byte>, y: seq<Byte>)
    ensures Holds(m, a, x + y) <==> Holds(m, a, x) && Holds(m, a + |x|, y)
  {
    if Holds(m, a, x + y) {
      assert forall k :: 0 <= k < |x| ==> (x + y)[k] == x[k];
      forall k | 0 <= k < |y|
        ensures Load(m, a + |x| + k) == y[k]
      {
        assert (x + y)[|x| + k] == y[k];
        assert Load(m, a + (|x| + k)) == (x + y)[|x| + k];
      }
    }
    if Holds(m, a, x) && Holds(m, a + |x|, y) {
      forall k | |x| <= k < |x + y|
        ensures Load(m, a + k) == (x + y)[k]
      {
        assert Load(m, a + |x| + (k - |x|)) == y[k - |x|];
      }
    }
  }

  lemma HoldsOutside(m: Memory, m': Memory, lo: int, hi: int, a: int, x: seq<Byte>)
    requires Outside(m, m', lo, hi) && Holds(m, a, x) && (hi <= a || a + |x| <= lo)
    ensures Holds(m', a, x)
  {
  }

  /** A page that appears in the address space. */
  function Mapped(m: Memory, from: int, frame: seq<Byte>): (m': Memory)
    ensures Holds(m', from, frame) && Outside(m, m', from, from + |frame|)
    decreases |frame|
  {
    if frame == [] then m else
      var n := |frame| - 1;
      assert forall k :: 0 <= k < n ==> frame[k] == frame[..n][k];
      Mapped(m, from, frame[..n])[from + n := frame[n]]
  }

  /** The first i entries are made, and p is at the string of the next. */
  ghost predicate Filled(m0: Memory, m: Memory, table: int, i: nat, p: int, start: int, ss: seq<CString>) {
    && i <= |ss| && p == start + Size(ss) - Size(ss[i..]) && start <= p
    && Outside(m0, m, table, table + 4 * i) && Holds(m, p, Packed(ss[i..]))
    && forall j :: 0 <= j < i ==> Entry(m, table, j, start, ss[j])
  }

  lemma FilledNext(m0: Memory, m: Memory, m': Memory, table: int, i: nat, p: int, start: int, ss: seq<CString>)
    requires Filled(m0, m, table, i, p, start, ss) && i < |ss| && table + 4 * |ss| + 4 <= start
    requires Outside(m, m', table + 4 * i, table + 4 * i + 4) && LoadLong(m', table + 4 * i) == p && Names(m', p, ss[i])
    requires Holds(m', p + |ss[i]| + 1, Packed(ss[i + 1..]))
    ensures Filled(m0, m', table, i + 1, p + |ss[i]| + 1, start, ss)
  {
    var at := table + 4 * i;
    SizeShrinks(ss, i);
    EntriesKept(m, m', table, i, start, ss, at, at + 4);
    OutsideBoth(m0, m, m', table, at, at + 4);
    assert Entry(m', table, i, start, ss[i]);
  }

  class UserMemory {
    var mem: Memory

    /** put_fs_long */
    method Put(v: int, a: int)
      requires 0 <= v < 0x1_0000_0000
      modifies this
      ensures LoadLong(mem, a) == v && Outside(old(mem), mem, a, a + 4)
      ensures Load(mem, a) as int == v % 256 && Load(mem, a + 1) as int == v / 256 % 256
      ensures Load(mem, a + 2) as int == v / 65536 % 256 && Load(mem, a + 3) as int == v / 16777216
    {
      StoreLongLoads(mem, a, v);
      mem := StoreLong(mem, a, v);
    }

    /** Past the zero that ends the string. */
    method Skip(start: int, ghost s: CString) returns (p: int)
      requires Names(mem, start, s)
      ensures p == start + |s| + 1
    {
      Length(mem, start, s);
      p := start;
      while Load(mem, p) != 0
        invariant start <= p <= start + |s|
        decreases start + |s| - p
      {
        assert NonZero(mem, start, p - start);
        p := p + 1;
      }
      assert !NonZero(mem, start, p - start);
      p := p + 1;
    }

    /** One turn of either loop of create_tables: an entry for the string at p, and p moves past it. */
    method FillEntry(at: int, p: int, ghost s: CString, ghost rest: seq<Byte>) returns (p': int)
      requires at + 4 <= p && 0 <= p < 0x1_0000_0000 && Holds(mem, p, s + [0] + rest)
      modifies this
      ensures Outside(old(mem), mem, at, at + 4) && LoadLong(mem, at) == p && Names(mem, p, s)
      ensures p' == p + |s| + 1 && Holds(mem, p', rest)
    {
      ghost var m := mem;
      Put(p, at);
      HoldsOutside(m, mem, at, at + 4, p, s + [0] + rest);
      HoldsSplit(mem, p, s + [0], rest);
      p' := Skip(p, s);
    }

    /** One of the two loops, with the null pointer that follows it. */
    method FillTable(n: nat, table: int, start: int, ghost ss: seq<CString>) returns (p: int)
      requires n == |ss| && table + 4 * n + 4 <= start && 0 <= start && start + Size(ss) < 0x1_0000_0000
      requires Holds(mem, start, Packed(ss))
      modifies this
      ensures p == start + Size(ss) && Vector(mem, table, start, ss) && Outside(old(mem), mem, table, table + 4 * n + 4)
    {
      p := start;
      var i := 0;
      assert ss[0..] == ss;
      while i < n
        invariant Filled(old(mem), mem, table, i, p, start, ss)
      {
        SizeShrinks(ss, i);
        ghost var m, q := mem, p;
        p := FillEntry(table + 4 * i, p, ss[i], Packed(ss[i + 1..]));
        FilledNext(old(mem), m, mem, table, i, q, start, ss);
        i := i + 1;
      }
      assert ss[n..] == [];
      ghost var m := mem;
      Put(0, table + 4 * n);
      EntriesKept(m, mem, table, n, start, ss, table + 4 * n, table + 4 * n + 4);
      OutsideBoth(old(mem), m, mem, table, table + 4 * n, table + 4 * n + 4);
    }

    /** create_tables: above the returned stack pointer lie argc, argv and envp, then the two vectors, then
        the strings; nothing but the tables is written. */
    method CreateTables(p: int, argc: nat, envc: nat, ghost args: seq<CString>, ghost envs: seq<CString>) returns (sp: int)
      requires argc == |args| && envc == |envs| && Holds(mem, p, Packed(args) + Packed(envs))
      requires 4 * (argc + envc + 5) + 4 <= p && p + Size(args) + Size(envs) < 0x1_0000_0000
      modifies this
      ensures Start(mem, sp, p, args, envs) && sp == Aligned(p) - 4 * (argc + envc + 5) && Outside(old(mem), mem, sp, p)
    {
      sp := Aligned(p);
      sp := sp - 4 * (envc + 1);
      var envp := sp;
      sp := sp - 4 * (argc + 1);
      var argv := sp;
      sp := sp - 12;
      HoldsSplit(mem, p, Packed(args), Packed(envs));
      PutHead(sp, argc, argv, envp);
      HoldsOutside(old(mem), mem, sp, argv, p, Packed(args));
      HoldsOutside(old(mem), mem, sp, argv, p + Size(args), Packed(envs));
      ghost var m := mem;
      FillBoth(p, argv, envp, argc, envc, args, envs);
      HeadKept(m, mem, sp, argc, argv, envp, p);
    }

    /** The three words below the tables. */
    method PutHead(sp: int, argc: nat, argv: int, envp: int)
      requires argc < 0x1_0000_0000 && 0 <= argv < 0x1_0000_0000 && 0 <= envp < 0x1_0000_0000
      modifies this
      ensures Head(mem, sp, argc, argv, envp) && Outside(old(mem), mem, sp, sp + 12)
    {
      Put(envp, sp + 8);
      ghost var m1 := mem;
      Put(argv, sp + 4);
      LongOutside(m1, mem, sp + 4, sp + 8, sp + 8);
      ghost var m2 := mem;
      Put(argc, sp);
      LongOutside(m2, mem, sp, sp + 4, sp + 4);
      LongOutside(m2, mem, sp, sp + 4, sp + 8);
    }

    /** Both tables. */
    method FillBoth(p: int, argv: int, envp: int, argc: nat, envc: nat, ghost args: seq<CString>, ghost envs: seq<CString>)
      requires argc == |args| && envc == |envs| && Holds(mem, p, Packed(args)) && Holds(mem, p + Size(args), Packed(envs))
      requires argv + 4 * argc + 4 == envp && envp + 4 * envc + 4 <= p && 0 <= p && p + Size(args) + Size(envs) < 0x1_0000_0000
      modifies this
      ensures Vector(mem, argv, p, args) && Vector(mem, envp, p + Size(args), envs) && Outside(old(mem), mem, argv, envp + 4 * envc + 4)
    {
      var p' := FillTable(argc, argv, p, args);
      HoldsOutside(old(mem), mem, argv, envp, p + Size(args), Packed(envs));
      ghost var m := mem;
      p' := FillTable(envc, envp, p', envs);
      EntriesKept(m, mem, argv, argc, p, args, envp, envp + 4 * envc + 4);
      LongOutside(m, mem, envp, envp + 4 * envc + 4, argv + 4 * argc);
    }
  }

  ghost predicate Head(m: Memory, sp: int, argc: int, argv: int, envp: int) {
    LoadLong(m, sp) == argc && LoadLong(m, sp + 4) == argv && LoadLong(m, sp + 8) == envp
  }

  lemma HeadKept(m: Memory, m': Memory, sp: int, argc: int, argv: int, envp: int, p: int)
    requires Head(m, sp, argc, argv, envp) && Outside(m, m', sp + 12, p)
    ensures Head(m', sp, argc, argv, envp)
  {
    LongOutside(m, m', sp + 12, p, sp);
    LongOutside(m, m', sp + 12, p, sp + 4);
    LongOutside(m, m', sp + 12, p, sp + 8);
  }

  /** Down to a multiple of four. */
  function Aligned(p: int): (r: int)
    ensures r % 4 == 0 && r <= p < r + 4
  {
    p - p % 4
  }

  /** The stack that the new program starts with. */
  ghost predicate Start(m: Memory, sp: int, strings: int, args: seq<CString>, envs: seq<CString>) {
    var argv, envp := sp + 12, sp + 12 + 4 * (|args| + 1);
    && Head(m, sp, |args|, argv, envp) && envp + 4 * (|envs| + 1) <= strings
    && Vector(m, argv, strings, args) && Vector(m, envp, strings + Size(args), envs)
  }

  /** The same in words of memory: argc, then the addresses of argv and of envp, then both vectors with their nulls; the bytes
      at pointer i are string i and a zero. */
  lemma StartLaw(m: Memory, sp: int, strings: int, args: seq<CString>, envs: seq<CString>)
    requires Start(m, sp, strings, args, envs)
    ensures LoadLong(m, sp) == |args| && LoadLong(m, sp + 4) == sp + 12 && LoadLong(m, sp + 8) == sp + 16 + 4 * |args|
    ensures LoadLong(m, sp + 12 + 4 * |args|) == 0 && LoadLong(m, sp + 16 + 4 * |args| + 4 * |envs|) == 0
    ensures forall i :: 0 <= i < |args| ==> ReadsAs(m, LoadLong(m, sp + 12 + 4 * i), args[i])
    ensures forall i :: 0 <= i < |envs| ==> ReadsAs(m, LoadLong(m, sp + 16 + 4 * |args| + 4 * i), envs[i])
  {
    var argv, envp := sp + 12, sp + 12 + 4 * (|args| + 1);
    forall i | 0 <= i < |args|
      ensures ReadsAs(m, LoadLong(m, sp + 12 + 4 * i), args[i])
    {
      assert Entry(m, argv, i, strings, args[i]);
      NamesReads(m, LoadLong(m, argv + 4 * i), args[i]);
    }
    forall i | 0 <= i < |envs|
      ensures ReadsAs(m, LoadLong(m, sp + 16 + 4 * |args| + 4 * i), envs[i])
    {
      assert Entry(m, envp, i, strings + Size(args), envs[i]);
      NamesReads(m, LoadLong(m, envp + 4 * i), envs[i]);
    }
  }

  /** The bytes from a on are those of s, and then a zero. */
  ghost predicate ReadsAs(m: Memory, a: int, s: seq<Byte>) {
    (forall k {:trigger s[k]} :: 0 <= k < |s| ==> Load(m, a + k) == s[k]) && Load(m, a + |s|) == 0
  }

  lemma NamesReads(m: Memory, a: int, s: CString)
    requires Names(m, a, s)
    ensures ReadsAs(m, a, s)
  {
    assert (s + [0])[|s|] == 0;
    assert forall k :: 0 <= k < |s| ==> (s + [0])[k] == s[k];
  }

  // ---------------------------------------------------------------- the whole way

  /** change_ldt puts the argument pages at the top of the new data segment. */
  method ChangeLdt(a: ArgPages, u: UserMemory, ghost p: nat)
    requires a.Valid() && p <= 131068 && a.From(First(p))
    modifies u
    ensures Holds(u.mem, 0x4000000 - 131072 + p, a.bytes[p..131068])
  {
    u.mem := map[];
    var i := 32;
    while i > 0
      invariant 0 <= i <= 32
      invariant forall x {:trigger a.bytes[x]} :: 4096 * i <= x < 131072 && a.page[x / 4096] ==> Load(u.mem, BASE + x) == a.bytes[x]
    {
      i := i - 1;
      if a.page[i] {
        u.mem := Mapped(u.mem, BASE + 4096 * i, a.bytes[4096 * i..4096 * (i + 1)]);
        forall x | 4096 * i <= x < 4096 * (i + 1)
          ensures Load(u.mem, BASE + x) == a.bytes[x]
        {
          assert Load(u.mem, BASE + 4096 * i + (x - 4096 * i)) == a.bytes[4096 * i..4096 * (i + 1)][x - 4096 * i];
        }
      }
    }
    forall k | 0 <= k < 131068 - p
      ensures Load(u.mem, BASE + p + k) == a.bytes[p..131068][k]
    {
      assert a.bytes[p..131068][k] == a.bytes[p + k];
      assert a.page[(p + k) / 4096];
    }
  }

  /** From the vectors given to execve to the vectors that the new program finds: when it gets as far as
      the new program, the i-th pointer of each names exactly the i-th string that was given. */
  method Execve(a: ArgPages, u: UserMemory, argv: seq<CString>, envp: seq<CString>) returns (r: Outcome, sp: int)
    requires a.Valid() && a.From(32)
    modifies a`free, a.page, a.bytes, u
    ensures var size := Size(argv) + Size(envp); r.Copied? <==> size < 131068 && 32 - First(131068 - size) <= old(a.free)
    ensures r.Copied? ==> Start(u.mem, sp, 0x4000000 - 4 - Size(argv) - Size(envp), argv, envp)
    ensures r.NoMemory? ==> u.mem == old(u.mem) && a.From(32) && a.free == old(a.Total())
  {
    sp := 0;
    r := a.LoadArgs(argv, envp);
    if r.Copied? {
      PackedConcat(argv, envp);
      sp := Enter(a, u, r.p, argv, envp);
    }
  }

  /** Past the point of no return. */
  method Enter(a: ArgPages, u: UserMemory, p: nat, argv: seq<CString>, envp: seq<CString>) returns (sp: int)
    requires a.Valid() && p <= 131068 && a.From(First(p)) && a.bytes[p..131068] == Packed(argv) + Packed(envp)
    modifies u
    ensures Start(u.mem, sp, BASE + p, argv, envp)
  {
    ChangeLdt(a, u, p);
    SizeAtLeast(argv);
    SizeAtLeast(envp);
    sp := u.CreateTables(BASE + p, |argv|, |envp|, argv, envp);
  }
}
