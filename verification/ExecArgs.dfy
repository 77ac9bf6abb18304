/** How fs/exec.c carries the argument and environment strings of execve into the new program.

    copy_strings packs them downwards from the top of 32 pages that it allocates as it goes;
    create_tables later finds them again in the new address space and builds argv and envp.
    Page frames are distinct, so the 32 pages are one array here.
 */
module ExecArgs {

  import opened Bytes

  /** Where the 32 pages of 4096 bytes go in the new data segment; the strings end 4 bytes below its top, at 131068. */
  const BASE: nat := 0x4000000 - 131072

  /** A string without its terminating zero; it comes from a data segment of 64 megabytes. */
  type CString = s: seq<Byte> | 0 !in s && |s| < 0x4000000

  /** The strings one after the other, each with its zero. */
  function Packed(ss: seq<CString>): seq<Byte> {
    if ss == [] then [] else ss[0] + [0] + Packed(ss[1..])
  }

  function Size(ss: seq<CString>): nat { |Packed(ss)| }

  lemma {:induction false} PackedConcat(a: seq<CString>, b: seq<CString>)
    ensures Packed(a + b) == Packed(a) + Packed(b)
    decreases |a|
  {
    if a == [] {
      assert a + b == b;
    } else {
      assert (a + b)[1..] == a[1..] + b;
      PackedConcat(a[1..], b);
    }
  }

  lemma {:induction false} SizeAtLeast(ss: seq<CString>)
    ensures Size(ss) >= |ss|
    decreases |ss|
  {
    if ss != [] {
      SizeAtLeast(ss[1..]);
    }
  }

  /** The lowest page in use when everything from p up is filled. */
  function First(p: nat): nat { if p == 131068 then 32 else p / 4096 }

  function Pages(present: seq<bool>): nat {
    if present == [] then 0 else Pages(present[..|present| - 1]) + if present[|present| - 1] then 1 else 0
  }

  lemma {:induction false} PagesUpdate(s: seq<bool>, i: nat)
    requires i < |s| && !s[i]
    ensures Pages(s[i := true]) == Pages(s) + 1
    decreases |s|
  {
    var n := |s| - 1;
    if i < n {
      assert s[i := true][..n] == s[..n][i := true];
      PagesUpdate(s[..n], i);
    } else {
      assert s[i := true][..n] == s[..n];
    }
  }

  lemma {:induction false} NoPages(s: seq<bool>)
    requires forall i :: 0 <= i < |s| ==> !s[i]
    ensures Pages(s) == 0
    decreases |s|
  {
    if s != [] {
      NoPages(s[..|s| - 1]);
    }
  }

  /** What copy_strings comes to.  It returns 0 for NoMemory; Wild is an access outside its page table. */
  datatype Outcome = Copied(p: nat) | NoMemory | Panicked | Wild

  class ArgPages {
    const page: array<bool>
    const bytes: array<Byte>
    var free: nat

    ghost predicate Valid()
      reads this
    {
      page.Length == 32 && bytes.Length == 131072
    }

    /** Exactly the pages from k up. */
    ghost predicate From(k: nat)
      requires Valid()
      reads this, page
    {
      forall i :: 0 <= i < 32 ==> (page[i] <==> k <= i)
    }

    ghost function Total(): nat
      reads this, page
    {
      free + Pages(page[..])
    }

    constructor (frames: nat)
      ensures Valid() && From(32) && free == frames && Total() == frames && fresh(page) && fresh(bytes)
    {
      page := new bool[32](_ => false);
      bytes := new Byte[131072];
      free := frames;
      new;
      NoPages(page[..]);
    }

    /** The allocation loop: pages from i up to the first that is there. */
    method Allocate(i: nat, ghost k: nat) returns (ok: bool)
      requires Valid() && i <= k <= 32 && From(k)
      modifies this`free, page
      ensures Total() == old(Total()) && (ok <==> k - i <= old(free))
      ensures ok ==> From(i) && free == old(free) - (k - i)
    {
      var j := i;
      while j < 32 && !page[j]
        invariant i <= j <= k && Total() == old(Total()) && free == old(free) - (j - i)
        invariant forall x :: 0 <= x < 32 ==> (page[x] <==> i <= x < j || k <= x)
      {
        if free == 0 {
          return false;
        }
        PagesUpdate(page[..], j);
        ghost var was := page[..];
        free := free - 1;
        page[j] := true;
        assert page[..] == was[j := true];
        j := j + 1;
      }
      ok := true;
    }

    /** The copying loop, from the last byte down.  It panics at a page that is missing, and below
        address 0 it leaves the page table. */
    method Store(s: seq<Byte>, top: nat, ghost k: nat) returns (r: Outcome)
      requires Valid() && top <= 131068 && (top == 0 || From(k))
      requires k == if |s| <= top then (top - |s|) / 4096 else First(top)
      modifies bytes
      ensures bytes[top..] == old(bytes[top..])
      ensures if |s| <= top then r == Copied(top - |s|) && bytes[top - |s|..top] == s else r == if k == 0 then Wild else Panicked
    {
      var p, len := top, |s|;
      while len > 0
        invariant 0 <= len <= |s| && p == top - |s| + len && p >= 0
        invariant bytes[p..top] == s[len..] && bytes[top..] == old(bytes[top..])
        invariant |s| > top && len < |s| ==> k * 4096 <= p
      {
        if p == 0 {
          return Wild;
        }
        p := p - 1;
        if !page[p / 4096] {
          return Panicked;
        }
        len := len - 1;
        ghost var was := bytes[..];
        bytes[p] := s[len];
        assert bytes[p..top] == [s[len]] + was[p + 1..top];
        assert s[len..] == [s[len]] + s[len + 1..];
      }
      r := Copied(p);
    }

    /** One string of copy_strings.  The test for p - len < 0 is on unsigned numbers and never fires. */
    method CopyString(s: CString, p: nat) returns (r: Outcome)
      requires Valid() && p <= 131068 && (p == 0 || From(First(p)))
      modifies this`free, page, bytes
      ensures Total() == old(Total()) && bytes[p..] == old(bytes[p..])
      ensures r.Copied? <==> |s| + 1 <= p && First(p) - First(p - |s| - 1) <= old(free)
      ensures r.Copied? ==> r.p == p - |s| - 1 && bytes[r.p..p] == s + [0] && From(First(r.p)) && free == old(free) - (First(p) - First(r.p))
      ensures r.Panicked? <==> |s| + 1 > p && First(p) > 0
      ensures r.Wild? <==> |s| + 1 > p && First(p) == 0
    {
      var len := |s| + 1;
      var i := ((p - len) % 0x1_0000_0000) / 4096;
      if i < 32 {
        assert i == (p - len) / 4096;
        var ok := Allocate(i, First(p));
        if !ok {
          return NoMemory;
        }
      }
      r := Store(s + [0], p, if len <= p then (p - len) / 4096 else First(p));
    }

    /** One more string below those that are there. */
    method CopyOn(s: CString, p: nat, ghost top: nat, ghost packed: seq<Byte>) returns (r: Outcome)
      requires Valid() && p <= top <= 131068 && (p == 0 || From(First(p))) && bytes[p..top] == packed
      modifies this`free, page, bytes
      ensures Total() == old(Total()) && bytes[top..] == old(bytes[top..])
      ensures r.Copied? <==> |s| + 1 <= p && First(p) - First(p - |s| - 1) <= old(free)
      ensures r.Copied? ==> r.p == p - |s| - 1 && bytes[r.p..top] == s + [0] + packed && From(First(r.p)) && free == old(free) - (First(p) - First(r.p))
      ensures r.Panicked? <==> |s| + 1 > p && First(p) > 0
      ensures r.Wild? <==> |s| + 1 > p && First(p) == 0
    {
      ghost var before := bytes[..];
      r := CopyString(s, p);
      SameAbove(before, bytes[..], p, top);
      assert r.Copied? ==> bytes[r.p..top] == bytes[r.p..p] + bytes[p..top];
    }

    /** copy_strings: it succeeds exactly when the strings fit and there are pages enough, and then no
        panic is reachable.  Strings that do not fit are not refused. */
    method CopyStrings(ss: seq<CString>, top: nat) returns (r: Outcome)
      requires Valid() && top <= 131068 && (top == 0 || From(First(top)))
      modifies this`free, page, bytes
      ensures Total() == old(Total()) && bytes[top..] == old(bytes[top..])
      ensures r.Copied? <==> Size(ss) <= top && First(top) - First(top - Size(ss)) <= old(free)
      ensures r.Copied? ==> r.p == top - Size(ss) && bytes[r.p..top] == Packed(ss) && (ss != [] || top != 0 ==> From(First(r.p)))
      ensures r.Copied? ==> free == old(free) - (First(top) - First(r.p))
      ensures Size(ss) <= top ==> !r.Panicked? && !r.Wild?
      ensures Size(ss) > top && 32 <= old(free) ==> r.Panicked? || r.Wild?
      ensures top == 0 && ss != [] ==> r.Wild?
    {
      var argc, p := |ss|, top;
      assert ss[|ss|..] == [];
      while argc > 0
        invariant 0 <= argc <= |ss| && 0 <= p <= top && p == top - Size(ss[argc..]) && bytes[p..top] == Packed(ss[argc..]) && bytes[top..] == old(bytes[top..])
        invariant Total() == old(Total()) && (p == 0 || From(First(p))) && (argc < |ss| ==> From(First(p)))
        invariant free == old(free) - (First(top) - First(p))
        invariant top == 0 ==> argc == |ss|
      {
        SizeShrinks(ss, argc - 1);
        argc := argc - 1;
        r := CopyOn(ss[argc], p, top, Packed(ss[argc + 1..]));
        if !r.Copied? {
          return;
        }
        p := r.p;
      }
      assert ss[0..] == ss;
      r := Copied(p);
    }

    /** The clean-up of do_execve. */
    method ReleaseAll()
      requires Valid()
      modifies this`free, page
      ensures From(32) && free == old(Total())
    {
      for i := 0 to 32
        invariant forall x :: 0 <= x < i ==> !page[x]
        invariant forall x :: i <= x < 32 ==> page[x] == old(page[x])
        invariant Total() == old(Total())
      {
        if page[i] {
          ghost var now := page[..][i := false];
          PagesUpdate(now, i);
          assert now[i := true] == page[..];
          free := free + 1;
          page[i] := false;
          assert page[..] == now;
        }
      }
      NoPages(page[..]);
    }

    /** What do_execve does with both vectors.  NoMemory is its failure return, after which every page is
        free again; success is a stack of less than 131068 bytes of strings for which there are pages.
        When the environment runs out of memory and there are arguments, the failure return is not
        reached: the zero that stands for the failure is used as an address. */
    method LoadArgs(argv: seq<CString>, envp: seq<CString>) returns (r: Outcome)
      requires Valid() && From(32)
      modifies this`free, page, bytes
      ensures var size := Size(argv) + Size(envp);
              r.Copied? <==> size < 131068 && 32 - First(131068 - size) <= old(free)
      ensures r.Copied? ==> r.p == 131068 - Size(argv) - Size(envp) && bytes[r.p..131068] == Packed(argv + envp) && From(First(r.p))
      ensures r.Copied? ==> Total() == old(Total())
      ensures r.NoMemory? ==> From(32) && free == old(Total())
      ensures Size(argv) + Size(envp) <= 131068 ==> !r.Panicked?
      ensures Size(argv) + Size(envp) <= 131068 ==> (r.Wild? <==> argv != [] && 32 - First(131068 - Size(envp)) > old(free))
    {
      r := CopyStrings(envp, 131068);
      if r.Panicked? || r.Wild? {
        return;
      }
      var p := if r.Copied? then r.p else 0;
      assert r.Copied? ==> bytes[p..131068] == bytes[p..][..131068 - p];
      ghost var kept := bytes[p..];
      r := CopyStrings(argv, p);
      if r.Panicked? || r.Wild? {
        return;
      }
      if r.NoMemory? || r.p == 0 {
        ReleaseAll();
        return NoMemory;
      }
      PackedConcat(argv, envp);
      assert bytes[r.p..131068] == bytes[r.p..p] + bytes[p..][..131068 - p];
    }
  }

  lemma SameAbove(s: seq<Byte>, t: seq<Byte>, p: nat, top: nat)
    requires |s| == |t| && p <= top <= |s| && s[p..] == t[p..]
    ensures s[p..top] == t[p..top] && s[top..] == t[top..]
  {
    assert s[p..top] == s[p..][..top - p] && s[top..] == s[p..][top - p..];
  }

  lemma {:induction false} SizeShrinks(ss: seq<CString>, k: nat)
    requires k < |ss|
    ensures Packed(ss[k..]) == ss[k] + [0] + Packed(ss[k + 1..]) && Size(ss[k..]) <= Size(ss)
  {
    assert ss[k..][1..] == ss[k + 1..];
    assert ss[..k] + ss[k..] == ss;
    PackedConcat(ss[..k], ss[k..]);
  }
}
