/** Descriptors and f_count: open, dup, pipe, fork, close and exit (fs/open.c, fs/fcntl.c,
    fs/pipe.c, kernel/fork.c, kernel/exit.c).

    A system call that can sleep is cut at its sleep point: between the two halves any other
    task may run.  An unused task slot has an empty descriptor table.
 */
module FileTables {
  import opened Sets

  const NR_TASKS: nat := 64
  const NR_OPEN: nat := 20
  const NR_FILE: nat := 64
  const NULL := -1

  /** What a task inside a system call has reserved. */
  datatype Pending = Idle | Opening(fd: int, f: int) | Piping(fd0: int, fd1: int, f0: int, f1: int)

  datatype Sys = Sys(filp: seq<seq<int>>, count: seq<int>, pending: seq<Pending>)

  predicate Shape(s: Sys) {
    && |s.filp| == NR_TASKS && |s.count| == NR_FILE && |s.pending| == NR_TASKS
    && (forall t :: 0 <= t < NR_TASKS ==> |s.filp[t]| == NR_OPEN)
    && (forall t, fd :: 0 <= t < NR_TASKS && 0 <= fd < NR_OPEN ==> s.filp[t][fd] == NULL || 0 <= s.filp[t][fd] < NR_FILE)
  }

  predicate Names(s: Sys, t: int, fd: int, f: int)
    requires Shape(s)
  {
    0 <= t < NR_TASKS && 0 <= fd < NR_OPEN && s.filp[t][fd] == f
  }

  ghost function Refs(s: Sys, f: int): set<(int, int)>
    requires Shape(s)
  {
    set t: int, fd: int | 0 <= t < NR_TASKS && 0 <= fd < NR_OPEN && Names(s, t, fd, f) :: (t, fd)
  }

  /** f_count is the number of descriptors that refer to the file. */
  ghost predicate CountOk(s: Sys)
    requires Shape(s)
  {
    forall f :: 0 <= f < NR_FILE ==> s.count[f] == |Refs(s, f)|
  }

  /** A reserved file is referred to by its reserved descriptor, once. */
  ghost predicate Reserved(s: Sys, t: int)
    requires Shape(s) && 0 <= t < NR_TASKS
  {
    match s.pending[t]
    case Idle => true
    case Opening(fd, f) => 0 <= f < NR_FILE && Names(s, t, fd, f) && s.count[f] == 1
    case Piping(fd0, fd1, f0, f1) =>
      0 <= f0 < f1 < NR_FILE && Names(s, t, fd0, f0) && Names(s, t, fd1, f1) && s.count[f0] == 1 && s.count[f1] == 1
  }

  ghost predicate PendingOk(s: Sys)
    requires Shape(s)
  {
    forall t :: 0 <= t < NR_TASKS ==> Reserved(s, t)
  }

  ghost predicate Inv(s: Sys) { Shape(s) && CountOk(s) && PendingOk(s) }

  /** In numbers: the count of a file is the number of descriptors of all 64 tasks that name it. */
  lemma InvLaw(s: Sys, f: int)
    requires Inv(s) && 0 <= f < 64
    ensures s.count[f] == |set t: int, fd: int | 0 <= t < 64 && 0 <= fd < 20 && Names(s, t, fd, f) :: (t, fd)|
    ensures forall t, fd :: 0 <= t < 64 && 0 <= fd < 20 ==> (Names(s, t, fd, f) <==> s.filp[t][fd] == f)
  {
  }

  // ---------------------------------------------------------------- one descriptor

  function SetFd(s: Sys, t: int, fd: int, v: int): Sys
    requires Shape(s) && 0 <= t < NR_TASKS && 0 <= fd < NR_OPEN
  {
    s.(filp := s.filp[t := s.filp[t][fd := v]])
  }

  function Hit(a: int, f: int): int { if a == f then 1 else 0 }

  lemma OneFdRefs(s: Sys, s': Sys, t: int, fd: int, f: int)
    requires Shape(s) && Shape(s') && 0 <= t < NR_TASKS && 0 <= fd < NR_OPEN
    requires forall t', fd' :: 0 <= t' < NR_TASKS && 0 <= fd' < NR_OPEN && (t' != t || fd' != fd) ==> s'.filp[t'][fd'] == s.filp[t'][fd']
    ensures |Refs(s', f)| == |Refs(s, f)| - Hit(s.filp[t][fd], f) + Hit(s'.filp[t][fd], f)
  {
    forall t', fd' | 0 <= t' < NR_TASKS && 0 <= fd' < NR_OPEN && (t' != t || fd' != fd)
      ensures Names(s', t', fd', f) == Names(s, t', fd', f)
    {
    }
    assert Refs(s', f) - {(t, fd)} == Refs(s, f) - {(t, fd)};
    assert (t, fd) in Refs(s, f) <==> Hit(s.filp[t][fd], f) == 1;
    assert (t, fd) in Refs(s', f) <==> Hit(s'.filp[t][fd], f) == 1;
    CardinalityWithout(Refs(s, f), (t, fd));
    CardinalityWithout(Refs(s', f), (t, fd));
  }

  lemma SetFdRefs(s: Sys, t: int, fd: int, v: int, f: int)
    requires Shape(s) && 0 <= t < NR_TASKS && 0 <= fd < NR_OPEN && (v == NULL || 0 <= v < NR_FILE)
    ensures Shape(SetFd(s, t, fd, v))
    ensures |Refs(SetFd(s, t, fd, v), f)| == |Refs(s, f)| - Hit(s.filp[t][fd], f) + Hit(v, f)
  {
    OneFdRefs(s, SetFd(s, t, fd, v), t, fd, f);
  }

  function Bump(s: Sys, f: int, delta: int): Sys
    requires Shape(s) && 0 <= f < NR_FILE
  {
    s.(count := s.count[f := s.count[f] + delta])
  }

  /** A file in use has a reference; one that is not has none. */
  lemma CountMeaning(s: Sys, t: int, fd: int, f: int)
    requires Shape(s) && CountOk(s) && 0 <= f < NR_FILE
    ensures Names(s, t, fd, f) ==> s.count[f] >= 1
    ensures s.count[f] == 1 && Names(s, t, fd, f) ==> forall t', fd' :: Names(s, t', fd', f) ==> t' == t && fd' == fd
  {
    if Names(s, t, fd, f) {
      assert (t, fd) in Refs(s, f);
      CardinalityWithout(Refs(s, f), (t, fd));
      if s.count[f] == 1 {
        assert Refs(s, f) - {(t, fd)} == {};
        forall t', fd' | Names(s, t', fd', f)
          ensures t' == t && fd' == fd
        {
          assert (t', fd') in Refs(s, f);
        }
      }
    }
  }

  /** The counters fit their sixteen bits many times over. */
  lemma CountBounded(s: Sys, f: int)
    requires Inv(s) && 0 <= f < NR_FILE
    ensures 0 <= s.count[f] <= NR_TASKS * NR_OPEN
  {
    GridSize(NR_TASKS, NR_OPEN);
    SubsetCardinality(Refs(s, f), Grid(NR_TASKS, NR_OPEN));
  }

  ghost function Grid(n: nat, m: nat): set<(int, int)> {
    set t: int, fd: int | 0 <= t < n && 0 <= fd < m :: (t, fd)
  }

  ghost function GridRow(t: int, m: nat): set<(int, int)> {
    set fd: int | 0 <= fd < m :: (t, fd)
  }

  lemma {:induction false} RowSize(t: int, m: nat)
    ensures |GridRow(t, m)| == m
  {
    if m > 0 {
      RowSize(t, m - 1);
      assert GridRow(t, m) == GridRow(t, m - 1) + {(t, m - 1)};
    }
  }

  lemma NextRow(n: nat, m: nat)
    ensures (n + 1) * m == n * m + m
  {
  }

  lemma GridSplit(n: nat, m: nat)
    ensures Grid(n + 1, m) == Grid(n, m) + GridRow(n, m) && Grid(n, m) !! GridRow(n, m)
  {
  }

  lemma {:induction false} GridSize(n: nat, m: nat)
    ensures |Grid(n, m)| == n * m
  {
    if n == 0 {
      assert Grid(n, m) == {};
    } else {
      GridSize(n - 1, m);
      RowSize(n - 1, m);
      GridSplit(n - 1, m);
      NextRow(n - 1, m);
    }
  }

  // ---------------------------------------------------------------- close and dup

  /** sys_close on an open descriptor. */
  function Close(s: Sys, t: int, fd: int): Sys
    requires Shape(s) && 0 <= t < NR_TASKS && 0 <= fd < NR_OPEN && 0 <= s.filp[t][fd]
  {
    SetFd(Bump(s, s.filp[t][fd], -1), t, fd, NULL)
  }

  /** The "file count is 0" panic of sys_close cannot be reached. */
  lemma CloseInv(s: Sys, t: int, fd: int)
    requires Inv(s) && 0 <= t < NR_TASKS && 0 <= fd < NR_OPEN && 0 <= s.filp[t][fd] && s.pending[t] == Idle
    ensures s.count[s.filp[t][fd]] >= 1
    ensures Inv(Close(s, t, fd))
  {
    var f := s.filp[t][fd];
    var s' := Close(s, t, fd);
    assert Names(s, t, fd, f);
    CountMeaning(s, t, fd, f);
    forall g | 0 <= g < NR_FILE
      ensures s'.count[g] == |Refs(s', g)|
    {
      SetFdRefs(Bump(s, f, -1), t, fd, NULL, g);
      assert Refs(Bump(s, f, -1), g) == Refs(s, g);
    }
    PendingKept(s, s', t, f);
  }

  /** Calls of task t on a file that t names do not disturb what other tasks have reserved. */
  lemma PendingKept(s: Sys, s': Sys, t: int, f: int)
    requires Inv(s) && Shape(s') && 0 <= t < NR_TASKS && s'.pending == s.pending && s.pending[t] == Idle
    requires forall u :: 0 <= u < NR_TASKS && u != t ==> s'.filp[u] == s.filp[u]
    requires forall g :: 0 <= g < NR_FILE && g != f ==> s'.count[g] == s.count[g]
    requires 0 <= f < NR_FILE && exists fd :: Names(s, t, fd, f)
    ensures PendingOk(s')
  {
    var fd :| Names(s, t, fd, f);
    forall u | 0 <= u < NR_TASKS && u != t
      ensures Reserved(s', u)
    {
      assert Reserved(s, u);
      match s.pending[u] {
        case Idle =>
        case Opening(fd', g) =>
          CountMeaning(s, u, fd', g);
        case Piping(a, b, g, h) =>
          CountMeaning(s, u, a, g);
          CountMeaning(s, u, b, h);
      }
    }
  }

  /** dupfd once a free descriptor arg has been found. */
  function Dup(s: Sys, t: int, fd: int, arg: int): Sys
    requires Shape(s) && 0 <= t < NR_TASKS && 0 <= fd < NR_OPEN && 0 <= arg < NR_OPEN && 0 <= s.filp[t][fd]
  {
    SetFd(Bump(s, s.filp[t][fd], 1), t, arg, s.filp[t][fd])
  }

  /** Two different places hold v. */
  ghost predicate TwoOf(s: seq<int>, v: int) { exists i, j :: 0 <= i < j < |s| && s[i] == v && s[j] == v }

  lemma AtMostOne(s: seq<int>, v: int, i: int)
    requires forall j :: 0 <= j < |s| && j != i ==> s[j] != v
    ensures !TwoOf(s, v)
  {
  }

  /** dup2 closes newfd first, whatever comes of the rest. */
  function Dup2(s: Sys, t: int, oldfd: int, newfd: int): Sys
    requires Inv(s) && 0 <= t < NR_TASKS && oldfd >= 0 && newfd >= 0
  {
    var s1 := if newfd < NR_OPEN && s.filp[t][newfd] != NULL then Close(s, t, newfd) else s;
    if oldfd < NR_OPEN && s1.filp[t][oldfd] != NULL && newfd < NR_OPEN then Dup(s1, t, oldfd, newfd) else s1
  }

  lemma DupInv(s: Sys, t: int, fd: int, arg: int)
    requires Inv(s) && 0 <= t < NR_TASKS && 0 <= fd < NR_OPEN && 0 <= arg < NR_OPEN
    requires 0 <= s.filp[t][fd] && s.filp[t][arg] == NULL && s.pending[t] == Idle
    ensures Inv(Dup(s, t, fd, arg))
  {
    var f := s.filp[t][fd];
    var s' := Dup(s, t, fd, arg);
    assert Names(s, t, fd, f);
    forall g | 0 <= g < NR_FILE
      ensures s'.count[g] == |Refs(s', g)|
    {
      SetFdRefs(Bump(s, f, 1), t, arg, f, g);
      assert Refs(Bump(s, f, 1), g) == Refs(s, g);
    }
    PendingKept(s, s', t, f);
  }

  // ---------------------------------------------------------------- reservation and rollback

  /** A free file and a free descriptor of an idle task become each other's. */
  function Reserve(s: Sys, t: int, fd: int, f: int): Sys
    requires Shape(s) && 0 <= t < NR_TASKS && 0 <= fd < NR_OPEN && 0 <= f < NR_FILE
  {
    SetFd(s.(count := s.count[f := 1]), t, fd, f)
  }

  /** The descriptor is cleared and the count set to zero. */
  function Undo(s: Sys, t: int, fd: int, f: int): Sys
    requires Shape(s) && 0 <= t < NR_TASKS && 0 <= fd < NR_OPEN && 0 <= f < NR_FILE
  {
    SetFd(s.(count := s.count[f := 0]), t, fd, NULL)
  }

  lemma ReserveCounts(s: Sys, t: int, fd: int, f: int)
    requires Shape(s) && CountOk(s) && 0 <= t < NR_TASKS && 0 <= fd < NR_OPEN && 0 <= f < NR_FILE
    requires s.filp[t][fd] == NULL && s.count[f] == 0
    ensures Shape(Reserve(s, t, fd, f)) && CountOk(Reserve(s, t, fd, f))
  {
    var s1 := s.(count := s.count[f := 1]);
    forall g | 0 <= g < NR_FILE
      ensures Reserve(s, t, fd, f).count[g] == |Refs(Reserve(s, t, fd, f), g)|
    {
      SetFdRefs(s1, t, fd, f, g);
      assert Refs(s1, g) == Refs(s, g);
    }
  }

  lemma UndoCounts(s: Sys, t: int, fd: int, f: int)
    requires Shape(s) && CountOk(s) && 0 <= f < NR_FILE && Names(s, t, fd, f) && s.count[f] == 1
    ensures Shape(Undo(s, t, fd, f)) && CountOk(Undo(s, t, fd, f))
  {
    var s1 := s.(count := s.count[f := 0]);
    forall g | 0 <= g < NR_FILE
      ensures Undo(s, t, fd, f).count[g] == |Refs(Undo(s, t, fd, f), g)|
    {
      SetFdRefs(s1, t, fd, NULL, g);
      assert Refs(s1, g) == Refs(s, g);
    }
  }

  // ---------------------------------------------------------------- open

  /** sys_open up to open_namei. */
  function OpenBegin(s: Sys, t: int, fd: int, f: int): Sys
    requires Shape(s) && 0 <= t < NR_TASKS && 0 <= fd < NR_OPEN && 0 <= f < NR_FILE
  {
    Reserve(s, t, fd, f).(pending := s.pending[t := Opening(fd, f)])
  }

  /** The rest of sys_open: the file stays, or descriptor and file are given back. */
  function OpenEnd(s: Sys, t: int, ok: bool): Sys
    requires Shape(s) && 0 <= t < NR_TASKS && s.pending[t].Opening? && 0 <= s.pending[t].fd < NR_OPEN && 0 <= s.pending[t].f < NR_FILE
  {
    var Opening(fd, f) := s.pending[t];
    (if ok then s.(count := s.count[f := 1]) else Undo(s, t, fd, f)).(pending := s.pending[t := Idle])
  }

  /** What other tasks have reserved is untouched when task t changes its own row and counts of files they do not name. */
  lemma OthersReserved(s: Sys, s': Sys, t: int)
    requires Inv(s) && Shape(s') && 0 <= t < NR_TASKS
    requires forall u :: 0 <= u < NR_TASKS && u != t ==> s'.filp[u] == s.filp[u] && s'.pending[u] == s.pending[u]
    requires forall g, u, fd :: 0 <= g < NR_FILE && u != t && Names(s, u, fd, g) && s.count[g] == 1 ==> s'.count[g] == 1
    requires Reserved(s', t)
    ensures PendingOk(s')
  {
    forall u | 0 <= u < NR_TASKS
      ensures Reserved(s', u)
    {
      assert Reserved(s, u);
      if u != t {
        match s.pending[u] {
          case Idle =>
          case Opening(fd, f) => assert Names(s, u, fd, f) && Names(s', u, fd, f);
          case Piping(fd0, fd1, f0, f1) =>
            assert Names(s, u, fd0, f0) && Names(s', u, fd0, f0);
            assert Names(s, u, fd1, f1) && Names(s', u, fd1, f1);
        }
      }
    }
  }

  lemma OpenBeginInv(s: Sys, t: int, fd: int, f: int)
    requires Inv(s) && 0 <= t < NR_TASKS && s.pending[t] == Idle && 0 <= fd < NR_OPEN && 0 <= f < NR_FILE
    requires s.filp[t][fd] == NULL && s.count[f] == 0
    ensures Inv(OpenBegin(s, t, fd, f))
  {
    var s' := OpenBegin(s, t, fd, f);
    ReserveCounts(s, t, fd, f);
    SameRefs(Reserve(s, t, fd, f), s');
    OthersReserved(s, s', t);
  }

  /** pending plays no part in the counts. */
  lemma SameRefs(s: Sys, s': Sys)
    requires Shape(s) && CountOk(s) && |s'.pending| == NR_TASKS && s'.filp == s.filp && s'.count == s.count
    ensures Shape(s') && CountOk(s')
  {
    forall f | 0 <= f < NR_FILE
      ensures Refs(s', f) == Refs(s, f)
    {
    }
  }

  lemma OpenEndInv(s: Sys, t: int, ok: bool)
    requires Inv(s) && 0 <= t < NR_TASKS && s.pending[t].Opening?
    ensures 0 <= s.pending[t].fd < NR_OPEN && 0 <= s.pending[t].f < NR_FILE && Inv(OpenEnd(s, t, ok))
    ensures ok ==> OpenEnd(s, t, ok).filp == s.filp && OpenEnd(s, t, ok).count == s.count
  {
    assert Reserved(s, t);
    var Opening(fd, f) := s.pending[t];
    var s' := OpenEnd(s, t, ok);
    if ok {
      assert s.count[f := 1] == s.count;
      SameRefs(s, s');
    } else {
      UndoCounts(s, t, fd, f);
      SameRefs(Undo(s, t, fd, f), s');
      CountMeaning(s, t, fd, f);
    }
    OthersReserved(s, s', t);
  }

  // ---------------------------------------------------------------- pipe

  function PipeBegin(s: Sys, t: int, fd0: int, fd1: int, f0: int, f1: int): Sys
    requires Shape(s) && 0 <= t < NR_TASKS && 0 <= fd0 < NR_OPEN && 0 <= fd1 < NR_OPEN && 0 <= f0 < NR_FILE && 0 <= f1 < NR_FILE
  {
    var s1 := Reserve(s, t, fd0, f0);
    SetFd(s1.(count := s1.count[f1 := 1]), t, fd1, f1).(pending := s.pending[t := Piping(fd0, fd1, f0, f1)])
  }

  function PipeEnd(s: Sys, t: int, ok: bool): Sys
    requires Shape(s) && 0 <= t < NR_TASKS && s.pending[t].Piping? && 0 <= s.pending[t].fd0 < NR_OPEN && 0 <= s.pending[t].fd1 < NR_OPEN
    requires 0 <= s.pending[t].f0 < NR_FILE && 0 <= s.pending[t].f1 < NR_FILE
  {
    var Piping(fd0, fd1, f0, f1) := s.pending[t];
    if ok then s.(pending := s.pending[t := Idle]) else
      var s1 := Undo(s, t, fd0, f0);
      SetFd(s1.(count := s1.count[f1 := 0]), t, fd1, NULL).(pending := s.pending[t := Idle])
  }

  lemma PipeBeginInv(s: Sys, t: int, fd0: int, fd1: int, f0: int, f1: int)
    requires Inv(s) && 0 <= t < NR_TASKS && s.pending[t] == Idle && 0 <= fd0 < fd1 < NR_OPEN && 0 <= f0 < f1 < NR_FILE
    requires s.filp[t][fd0] == NULL && s.filp[t][fd1] == NULL && s.count[f0] == 0 && s.count[f1] == 0
    ensures Inv(PipeBegin(s, t, fd0, fd1, f0, f1))
  {
    var s' := PipeBegin(s, t, fd0, fd1, f0, f1);
    ReserveCounts(s, t, fd0, f0);
    var s1 := Reserve(s, t, fd0, f0);
    ReserveCounts(s1, t, fd1, f1);
    SameRefs(Reserve(s1, t, fd1, f1), s');
    OthersReserved(s, s', t);
  }

  lemma PipeEndInv(s: Sys, t: int, ok: bool)
    requires Inv(s) && 0 <= t < NR_TASKS && s.pending[t].Piping?
    ensures var p := s.pending[t]; 0 <= p.fd0 < NR_OPEN && 0 <= p.fd1 < NR_OPEN && 0 <= p.f0 < p.f1 < NR_FILE
    ensures Inv(PipeEnd(s, t, ok))
  {
    assert Reserved(s, t);
    var Piping(fd0, fd1, f0, f1) := s.pending[t];
    var s' := PipeEnd(s, t, ok);
    if ok {
      SameRefs(s, s');
    } else {
      UndoCounts(s, t, fd0, f0);
      var s1 := Undo(s, t, fd0, f0);
      assert Names(s1, t, fd1, f1);
      UndoCounts(s1, t, fd1, f1);
      SameRefs(Undo(s1, t, fd1, f1), s');
      CountMeaning(s, t, fd0, f0);
      CountMeaning(s, t, fd1, f1);
    }
    OthersReserved(s, s', t);
  }

  // ---------------------------------------------------------------- fork

  /** How many of the first k descriptors of a row name f. */
  function Occurrences(row: seq<int>, f: int, k: nat): nat
    requires k <= |row|
  {
    if k == 0 then 0 else Occurrences(row, f, k - 1) + Hit(row[k - 1], f)
  }

  /** copy_process: the child gets the parent's descriptors, each file one more reference per descriptor. */
  function Fork(s: Sys, t: int, nr: int): Sys
    requires Shape(s) && 0 <= t < NR_TASKS && 0 <= nr < NR_TASKS
  {
    s.(filp := s.filp[nr := s.filp[t]],
       count := seq(NR_FILE, f requires 0 <= f < NR_FILE => s.count[f] + Occurrences(s.filp[t], f, NR_OPEN)))
  }

  predicate Unused(s: Sys, nr: int)
    requires Shape(s) && 0 <= nr < NR_TASKS
  {
    s.pending[nr] == Idle && forall fd :: 0 <= fd < NR_OPEN ==> s.filp[nr][fd] == NULL
  }

  /** The child's row filled up to k. */
  ghost function Half(s: Sys, t: int, nr: int, k: nat): Sys
    requires Shape(s) && 0 <= t < NR_TASKS && 0 <= nr < NR_TASKS && k <= NR_OPEN
  {
    s.(filp := s.filp[nr := s.filp[t][..k] + s.filp[nr][k..]])
  }

  lemma {:induction false} ForkRefs(s: Sys, t: int, nr: int, f: int, k: nat)
    requires Shape(s) && 0 <= t < NR_TASKS && 0 <= nr < NR_TASKS && t != nr && Unused(s, nr) && 0 <= f < NR_FILE && k <= NR_OPEN
    ensures Shape(Half(s, t, nr, k)) && |Refs(Half(s, t, nr, k), f)| == |Refs(s, f)| + Occurrences(s.filp[t], f, k)
  {
    if k == 0 {
      assert s.filp[t][..0] + s.filp[nr][0..] == s.filp[nr];
      assert Half(s, t, nr, 0).filp == s.filp;
      assert Refs(Half(s, t, nr, 0), f) == Refs(s, f);
    } else {
      ForkRefs(s, t, nr, f, k - 1);
      OneFdRefs(Half(s, t, nr, k - 1), Half(s, t, nr, k), nr, k - 1, f);
    }
  }

  lemma {:induction false} OccursOrNot(row: seq<int>, f: int, k: nat)
    requires k <= |row|
    ensures Occurrences(row, f, k) > 0 <==> exists i :: 0 <= i < k && row[i] == f
  {
    if k > 0 {
      OccursOrNot(row, f, k - 1);
    }
  }

  lemma ForkInv(s: Sys, t: int, nr: int)
    requires Inv(s) && 0 <= t < NR_TASKS && 0 <= nr < NR_TASKS && t != nr && s.pending[t] == Idle && Unused(s, nr)
    ensures Inv(Fork(s, t, nr))
  {
    var s' := Fork(s, t, nr);
    assert s.filp[t][..NR_OPEN] + s.filp[nr][NR_OPEN..] == s.filp[t];
    assert s'.filp == Half(s, t, nr, NR_OPEN).filp;
    forall f | 0 <= f < NR_FILE
      ensures s'.count[f] == |Refs(s', f)|
    {
      ForkRefs(s, t, nr, f, NR_OPEN);
      assert Refs(s', f) == Refs(Half(s, t, nr, NR_OPEN), f);
    }
    forall g, u, fd | 0 <= g < NR_FILE && u != nr && Names(s, u, fd, g) && s.count[g] == 1 && s.pending[u] != Idle
      ensures s'.count[g] == 1
    {
      CountMeaning(s, u, fd, g);
      OccursOrNot(s.filp[t], g, NR_OPEN);
      assert forall i :: 0 <= i < NR_OPEN ==> (Names(s, t, i, g) <==> s.filp[t][i] == g);
    }
    forall u | 0 <= u < NR_TASKS
      ensures Reserved(s', u)
    {
      assert Reserved(s, u);
      match s.pending[u] {
        case Idle =>
        case Opening(fd, f) => assert Names(s, u, fd, f) && Names(s', u, fd, f);
        case Piping(fd0, fd1, f0, f1) =>
          assert Names(s, u, fd0, f0) && Names(s', u, fd0, f0);
          assert Names(s, u, fd1, f1) && Names(s', u, fd1, f1);
      }
    }
  }

  // ---------------------------------------------------------------- runs

  /** A task that dies inside open or pipe leaves its reservations as ordinary descriptors. */
  function Abandon(s: Sys, t: int): Sys
    requires Shape(s) && 0 <= t < NR_TASKS
  {
    s.(pending := s.pending[t := Idle])
  }

  lemma AbandonInv(s: Sys, t: int)
    requires Inv(s) && 0 <= t < NR_TASKS
    ensures Inv(Abandon(s, t))
  {
    var s' := Abandon(s, t);
    forall u, fd, f
      ensures Names(s', u, fd, f) <==> Names(s, u, fd, f)
    {
    }
    forall f | 0 <= f < NR_FILE
      ensures s'.count[f] == |Refs(s', f)|
    {
      assert Refs(s', f) == Refs(s, f);
    }
    forall u | 0 <= u < NR_TASKS
      ensures Reserved(s', u)
    {
      assert Reserved(s, u);
    }
  }

  datatype Event =
    | OpenStart(t: int, fd: int, f: int) | OpenDone(t: int, ok: bool)
    | PipeStart(t: int, fd0: int, fd1: int, f0: int, f1: int) | PipeDone(t: int, ok: bool)
    | Dupped(t: int, fd: int, arg: int) | Closed(t: int, fd: int) | Forked(t: int, nr: int)
    | Killed(t: int)       // in the middle of a call, which will never finish; do_exit follows

  /** The halves of system calls that can come next: a task inside a call can only finish it. */
  predicate Legal(s: Sys, ev: Event)
    requires Shape(s)
  {
    0 <= ev.t < NR_TASKS &&
    match ev
    case OpenStart(t, fd, f) => s.pending[t] == Idle && 0 <= fd < NR_OPEN && 0 <= f < NR_FILE && s.filp[t][fd] == NULL && s.count[f] == 0
    case OpenDone(t, _) => s.pending[t].Opening?
    case PipeStart(t, fd0, fd1, f0, f1) =>
      && s.pending[t] == Idle && 0 <= fd0 < fd1 < NR_OPEN && 0 <= f0 < f1 < NR_FILE
      && s.filp[t][fd0] == NULL && s.filp[t][fd1] == NULL && s.count[f0] == 0 && s.count[f1] == 0
    case PipeDone(t, _) => s.pending[t].Piping?
    case Dupped(t, fd, arg) => s.pending[t] == Idle && 0 <= fd < NR_OPEN && 0 <= arg < NR_OPEN && 0 <= s.filp[t][fd] && s.filp[t][arg] == NULL
    case Closed(t, fd) => s.pending[t] == Idle && 0 <= fd < NR_OPEN && 0 <= s.filp[t][fd]
    case Killed(t) => true
    case Forked(t, nr) => s.pending[t] == Idle && 0 <= nr < NR_TASKS && nr != t && Unused(s, nr)
  }

  ghost function Next(s: Sys, ev: Event): (s': Sys)
    requires Inv(s) && Legal(s, ev)
    ensures Inv(s')
  {
    match ev
    case OpenStart(t, fd, f) => OpenBeginInv(s, t, fd, f); OpenBegin(s, t, fd, f)
    case OpenDone(t, ok) => OpenEndInv(s, t, ok); OpenEnd(s, t, ok)
    case PipeStart(t, fd0, fd1, f0, f1) => PipeBeginInv(s, t, fd0, fd1, f0, f1); PipeBegin(s, t, fd0, fd1, f0, f1)
    case PipeDone(t, ok) => PipeEndInv(s, t, ok); PipeEnd(s, t, ok)
    case Dupped(t, fd, arg) => DupInv(s, t, fd, arg); Dup(s, t, fd, arg)
    case Closed(t, fd) => CloseInv(s, t, fd); Close(s, t, fd)
    case Forked(t, nr) => ForkInv(s, t, nr); Fork(s, t, nr)
    case Killed(t) => AbandonInv(s, t); Abandon(s, t)
  }

  // ---------------------------------------------------------------- what each step does to the tables

  /** Descriptor fd of task t is v now, and every other descriptor of every task is as before. */
  ghost predicate OneFd(s: Sys, s': Sys, t: int, fd: int, v: int)
    requires Shape(s) && Shape(s') && 0 <= t < NR_TASKS && 0 <= fd < NR_OPEN
  {
    && s'.filp[t][fd] == v
    && forall u, d :: 0 <= u < NR_TASKS && 0 <= d < NR_OPEN && (u != t || d != fd) ==> s'.filp[u][d] == s.filp[u][d]
  }

  /** open takes a descriptor and a file; when the name is not found both are free again, and otherwise nothing moves. */
  lemma OpenLaw(s: Sys, t: int, fd: int, f: int)
    requires Inv(s) && Legal(s, OpenStart(t, fd, f))
    ensures var s' := Next(s, OpenStart(t, fd, f));
      && OneFd(s, s', t, fd, f) && s'.count[f] == 1 && s'.pending == s.pending[t := Opening(fd, f)]
      && forall g :: 0 <= g < NR_FILE && g != f ==> s'.count[g] == s.count[g]
  {
  }

  lemma OpenDoneLaw(s: Sys, t: int, found: bool)
    requires Inv(s) && Legal(s, OpenDone(t, found))
    ensures var Opening(fd, f) := s.pending[t]; var s' := Next(s, OpenDone(t, found));
      && 0 <= fd < NR_OPEN && 0 <= f < NR_FILE && OneFd(s, s', t, fd, if found then f else NULL)
      && s'.count[f] == (if found then 1 else 0) && s'.pending == s.pending[t := Idle]
      && forall g :: 0 <= g < NR_FILE && g != f ==> s'.count[g] == s.count[g]
  {
    OpenEndInv(s, t, found);
    assert Reserved(s, t);
  }

  /** close frees one descriptor and takes one from the count of its file. */
  lemma CloseLaw(s: Sys, t: int, fd: int)
    requires Inv(s) && Legal(s, Closed(t, fd))
    ensures var f, s' := s.filp[t][fd], Next(s, Closed(t, fd));
      && OneFd(s, s', t, fd, NULL) && s'.count[f] == s.count[f] - 1 && s'.pending == s.pending
      && forall g :: 0 <= g < NR_FILE && g != f ==> s'.count[g] == s.count[g]
  {
    CloseInv(s, t, fd);
  }

  /** dup makes a second descriptor for the same file. */
  lemma DupLaw(s: Sys, t: int, fd: int, arg: int)
    requires Inv(s) && Legal(s, Dupped(t, fd, arg))
    ensures var f, s' := s.filp[t][fd], Next(s, Dupped(t, fd, arg));
      && OneFd(s, s', t, arg, f) && s'.filp[t][fd] == f && s'.count[f] == s.count[f] + 1 && s'.pending == s.pending
      && forall g :: 0 <= g < NR_FILE && g != f ==> s'.count[g] == s.count[g]
  {
  }

  /** pipe takes two descriptors and two files, in order, or gives all of them back. */
  lemma PipeLaw(s: Sys, t: int, fd0: int, fd1: int, f0: int, f1: int)
    requires Inv(s) && Legal(s, PipeStart(t, fd0, fd1, f0, f1))
    ensures var s' := Next(s, PipeStart(t, fd0, fd1, f0, f1));
      && s'.filp[t] == s.filp[t][fd0 := f0][fd1 := f1] && (forall u :: 0 <= u < NR_TASKS && u != t ==> s'.filp[u] == s.filp[u])
      && s'.count == s.count[f0 := 1][f1 := 1] && s'.pending == s.pending[t := Piping(fd0, fd1, f0, f1)]
  {
  }

  lemma PipeDoneLaw(s: Sys, t: int, ok: bool)
    requires Inv(s) && Legal(s, PipeDone(t, ok))
    ensures var Piping(fd0, fd1, f0, f1) := s.pending[t]; var s' := Next(s, PipeDone(t, ok));
      && 0 <= fd0 < NR_OPEN && 0 <= fd1 < NR_OPEN && 0 <= f0 < f1 < NR_FILE && s'.pending == s.pending[t := Idle]
      && s'.filp[t] == (if ok then s.filp[t] else s.filp[t][fd0 := NULL][fd1 := NULL])
      && (forall u :: 0 <= u < NR_TASKS && u != t ==> s'.filp[u] == s.filp[u])
      && s'.count == if ok then s.count else s.count[f0 := 0][f1 := 0]
  {
    PipeEndInv(s, t, ok);
    assert Reserved(s, t);
  }

  /** fork gives the child every descriptor of its parent, and each file as many references more as the parent has of it. */
  lemma ForkLaw(s: Sys, t: int, nr: int)
    requires Inv(s) && Legal(s, Forked(t, nr))
    ensures var s' := Next(s, Forked(t, nr));
      && (forall fd :: 0 <= fd < NR_OPEN ==> s'.filp[nr][fd] == s.filp[t][fd])
      && (forall u :: 0 <= u < NR_TASKS && u != nr ==> s'.filp[u] == s.filp[u]) && s'.pending == s.pending
      && (forall f :: 0 <= f < NR_FILE ==> s'.count[f] == s.count[f] + |Descriptors(s.filp[t], f, NR_OPEN)|)
  {
    forall f | 0 <= f < NR_FILE
      ensures Next(s, Forked(t, nr)).count[f] == s.count[f] + |Descriptors(s.filp[t], f, NR_OPEN)|
    {
      OccurrencesAre(s.filp[t], f, NR_OPEN);
    }
  }

  /** The descriptors below k that name f. */
  function Descriptors(row: seq<int>, f: int, k: nat): set<int>
    requires k <= |row|
  {
    set fd | 0 <= fd < k && row[fd] == f
  }

  lemma {:induction false} OccurrencesAre(row: seq<int>, f: int, k: nat)
    requires k <= |row|
    ensures Occurrences(row, f, k) == |Descriptors(row, f, k)|
  {
    if k > 0 {
      OccurrencesAre(row, f, k - 1);
      if row[k - 1] == f {
        assert Descriptors(row, f, k) == Descriptors(row, f, k - 1) + {k - 1};
      } else {
        assert Descriptors(row, f, k) == Descriptors(row, f, k - 1);
      }
    } else {
      assert Descriptors(row, f, k) == {};
    }
  }

  ghost predicate Steps(s: Sys, s': Sys, ev: Event) {
    Shape(s) && Legal(s, ev) && (Inv(s) ==> s' == Next(s, ev))
  }

  /** A sequence of states joined by events, from a table in which nothing is open. */
  ghost predicate IsRun(ss: seq<Sys>, evs: seq<Event>) {
    && |ss| == |evs| + 1 && Shape(ss[0])
    && (forall t :: 0 <= t < NR_TASKS ==> Unused(ss[0], t)) && (forall f :: 0 <= f < NR_FILE ==> ss[0].count[f] == 0)
    && forall k {:trigger evs[k]} :: 0 <= k < |evs| ==> Steps(ss[k], ss[k + 1], evs[k])
  }

  lemma BootInv(s: Sys)
    requires Shape(s) && (forall t :: 0 <= t < NR_TASKS ==> Unused(s, t)) && forall f :: 0 <= f < NR_FILE ==> s.count[f] == 0
    ensures Inv(s)
  {
    forall f | 0 <= f < NR_FILE
      ensures s.count[f] == |Refs(s, f)|
    {
      forall t, fd | 0 <= t < NR_TASKS && 0 <= fd < NR_OPEN
        ensures !Names(s, t, fd, f)
      {
        assert Unused(s, t);
      }
      assert Refs(s, f) == {};
    }
    forall t | 0 <= t < NR_TASKS
      ensures Reserved(s, t)
    {
      assert Unused(s, t);
    }
  }

  /** At every sleep point of every run, f_count is the number of descriptors naming the file, at most 1280. */
  lemma {:induction false} AlwaysCounted(ss: seq<Sys>, evs: seq<Event>, k: nat, f: int)
    requires IsRun(ss, evs) && k < |ss| && 0 <= f < NR_FILE
    ensures Inv(ss[k]) && ss[k].count[f] == |Refs(ss[k], f)| <= NR_TASKS * NR_OPEN
  {
    if k == 0 {
      BootInv(ss[0]);
    } else {
      AlwaysCounted(ss, evs, k - 1, f);
      assert Steps(ss[k - 1], ss[k], evs[k - 1]);
    }
    CountBounded(ss[k], f);
  }

  /** dup2: newfd names the file of oldfd afterwards and no other descriptor moves; without a good oldfd it is only closed. */
  lemma Dup2Law(s: Sys, t: int, oldfd: int, newfd: int)
    requires Inv(s) && 0 <= t < NR_TASKS && s.pending[t] == Idle && oldfd >= 0 && newfd >= 0
    ensures var s' := Dup2(s, t, oldfd, newfd); var good := oldfd < NR_OPEN && s.filp[t][oldfd] != NULL && oldfd != newfd;
      && Shape(s') && s'.pending == s.pending
      && (newfd < NR_OPEN ==> OneFd(s, s', t, newfd, if good then s.filp[t][oldfd] else NULL))
      && (newfd >= NR_OPEN ==> s' == s)
  {
  }

  // ---------------------------------------------------------------- the system calls

  class FileTable {
    const filp: array<seq<int>>
    const count: array<int>
    const pending: array<Pending>

    ghost function State(): Sys
      reads filp, count, pending
    {
      Sys(filp[..], count[..], pending[..])
    }

    ghost predicate Valid()
      reads filp, count, pending
    {
      filp as object != count as object && filp as object != pending as object && count as object != pending as object && Inv(State())
    }

    constructor ()
      ensures Valid() && fresh(filp) && fresh(count) && fresh(pending)
    {
      filp := new seq<int>[NR_TASKS](_ => seq(NR_OPEN, _ => NULL));
      count := new int[NR_FILE](_ => 0);
      pending := new Pending[NR_TASKS](_ => Idle);
      new;
      BootInv(State());
    }

    /** The lowest free descriptor of task t from `from` on, NR_OPEN if none. */
    method FreeFd(t: int, from: nat) returns (fd: nat)
      requires Shape(State()) && 0 <= t < NR_TASKS && from <= NR_OPEN
      ensures from <= fd <= NR_OPEN && (fd < NR_OPEN ==> filp[t][fd] == NULL)
      ensures forall i :: from <= i < fd ==> filp[t][i] != NULL
    {
      fd := from;
      while fd < NR_OPEN && filp[t][fd] != NULL
        invariant from <= fd <= NR_OPEN
        invariant forall i :: from <= i < fd ==> filp[t][i] != NULL
      {
        fd := fd + 1;
      }
    }

    /** The lowest free file from `from` on, NR_FILE if none. */
    method FreeFile(from: nat) returns (f: nat)
      requires count.Length == NR_FILE && from <= NR_FILE
      ensures from <= f <= NR_FILE && (f < NR_FILE ==> count[f] == 0)
      ensures forall i :: from <= i < f ==> count[i] != 0
    {
      f := from;
      while f < NR_FILE && count[f] != 0
        invariant from <= f <= NR_FILE
        invariant forall i :: from <= i < f ==> count[i] != 0
      {
        f := f + 1;
      }
    }

    /** sys_open up to open_namei; false for -EINVAL. */
    method SysOpen(t: int) returns (ok: bool)
      requires Valid() && 0 <= t < NR_TASKS && pending[t] == Idle
      modifies filp, count, pending
      ensures Valid()
      ensures ok <==> NULL in old(State()).filp[t] && 0 in old(State()).count
      ensures !ok ==> State() == old(State())
      ensures ok ==> exists fd, f ::
        && Legal(old(State()), OpenStart(t, fd, f)) && State() == Next(old(State()), OpenStart(t, fd, f))
        && (forall i :: 0 <= i < fd ==> old(State()).filp[t][i] != NULL) && (forall i :: 0 <= i < f ==> old(State()).count[i] != 0)
    {
      ghost var s := State();
      var fd := FreeFd(t, 0);
      if fd >= NR_OPEN {
        return false;
      }
      var f := FreeFile(0);
      if f >= NR_FILE {
        return false;
      }
      OpenBeginInv(s, t, fd, f);
      filp[t] := filp[t][fd := f];
      count[f] := count[f] + 1;
      pending[t] := Opening(fd, f);
      assert State() == OpenBegin(s, t, fd, f);
      assert Legal(s, OpenStart(t, fd, f));
      ok := true;
    }

    /** sys_open once open_namei has come back. */
    method SysOpenEnd(t: int, found: bool)
      requires Valid() && 0 <= t < NR_TASKS && pending[t].Opening?
      modifies filp, count, pending
      ensures Valid() && State() == Next(old(State()), OpenDone(t, found))
    {
      ghost var s := State();
      OpenEndInv(s, t, found);
      var Opening(fd, f) := pending[t];
      if found {
        count[f] := 1;
      } else {
        filp[t] := filp[t][fd := NULL];
        count[f] := 0;
      }
      pending[t] := Idle;
      assert State() == OpenEnd(s, t, found);
    }

    /** sys_close, as far as the tables are concerned; false for -EINVAL. */
    method SysClose(t: int, fd: int) returns (ok: bool)
      requires Valid() && 0 <= t < NR_TASKS && pending[t] == Idle && fd >= 0
      modifies filp, count
      ensures Valid()
      ensures ok <==> fd < NR_OPEN && old(State()).filp[t][fd] != NULL
      ensures State() == if ok then Next(old(State()), Closed(t, fd)) else old(State())
    {
      if fd >= NR_OPEN || filp[t][fd] == NULL {
        return false;
      }
      ghost var s := State();
      CloseInv(s, t, fd);
      var f := filp[t][fd];
      filp[t] := filp[t][fd := NULL];
      assert count[f] > 0;
      count[f] := count[f] - 1;
      assert State() == Close(s, t, fd);
      ok := true;
    }

    /** dupfd: the new descriptor, or -EBADF, -EINVAL, -EMFILE as -9, -22, -24. */
    method DupFd(t: int, fd: int, arg: int) returns (r: int)
      requires Valid() && 0 <= t < NR_TASKS && pending[t] == Idle && fd >= 0 && arg >= 0
      modifies filp, count
      ensures Valid()
      ensures r < 0 ==> State() == old(State())
      ensures r >= 0 ==> arg <= r < NR_OPEN && Legal(old(State()), Dupped(t, fd, r)) && State() == Next(old(State()), Dupped(t, fd, r))
      ensures r >= 0 ==> forall i :: arg <= i < r ==> old(State()).filp[t][i] != NULL
      ensures r >= 0 ==> fd < NR_OPEN && filp[t] == old(filp[t])[r := old(filp[t])[fd]] && forall u :: 0 <= u < NR_TASKS && u != t ==> filp[u] == old(filp[u])
      ensures r == -9 <==> fd >= NR_OPEN || old(State()).filp[t][fd] == NULL
      ensures r == -22 <==> r != -9 && arg >= NR_OPEN
      ensures r == -24 <==> r != -9 && arg < NR_OPEN && forall i :: arg <= i < NR_OPEN ==> old(State()).filp[t][i] != NULL
      ensures r < 0 ==> r in {-9, -22, -24}
    {
      if fd >= NR_OPEN || filp[t][fd] == NULL {
        return -9;
      }
      if arg >= NR_OPEN {
        return -22;
      }
      var free := FreeFd(t, arg);
      if free >= NR_OPEN {
        return -24;
      }
      ghost var s := State();
      DupInv(s, t, fd, free);
      var f := filp[t][fd];
      filp[t] := filp[t][free := f];
      count[f] := count[f] + 1;
      assert State() == Dup(s, t, fd, free);
      r := free;
    }

    /** sys_dup2: when both numbers are the same open descriptor, it is closed and the call fails. */
    method SysDup2(t: int, oldfd: int, newfd: int) returns (r: int)
      requires Valid() && 0 <= t < NR_TASKS && pending[t] == Idle && oldfd >= 0 && newfd >= 0
      modifies filp, count
      ensures Valid()
      ensures var s := old(State()); var bad := oldfd >= NR_OPEN || s.filp[t][oldfd] == NULL || oldfd == newfd;
        && r == (if bad then -9 else if newfd >= NR_OPEN then -22 else newfd)
        && State() == Dup2(s, t, oldfd, newfd)
    {
      ghost var s := State();
      var closed := SysClose(t, newfd);
      assert newfd < NR_OPEN ==> filp[t][newfd] == NULL;
      assert oldfd < NR_OPEN && oldfd != newfd ==> filp[t][oldfd] == s.filp[t][oldfd];
      r := DupFd(t, oldfd, newfd);
    }

    /** sys_pipe's first loop, with its rollback: two files are reserved, or none. */
    method TwoFiles() returns (ok: bool, f0: nat, f1: nat)
      requires count.Length == NR_FILE
      modifies count
      ensures ok <==> TwoOf(old(count[..]), 0)
      ensures !ok ==> count[..] == old(count[..])
      ensures ok ==> f0 < f1 < NR_FILE && old(count[f0]) == 0 && old(count[f1]) == 0 && count[..] == old(count[..])[f0 := 1][f1 := 1]
    {
      ghost var was := count[..];
      f1 := 0;
      f0 := FreeFile(0);
      if f0 >= NR_FILE {
        AtMostOne(was, 0, 0);
        return false, f0, f1;
      }
      count[f0] := count[f0] + 1;
      f1 := FreeFile(f0 + 1);
      if f1 >= NR_FILE {
        forall j | 0 <= j < NR_FILE && j != f0
          ensures was[j] != 0
        {
          assert count[j] == was[j];
        }
        AtMostOne(was, 0, f0);
        count[f0] := 0;
        return false, f0, f1;
      }
      assert was[f0] == 0 && was[f1] == 0;
      count[f1] := count[f1] + 1;
      ok := true;
    }

    /** sys_pipe up to get_pipe_inode, with its second rollback; false for -1. */
    method SysPipe(t: int) returns (ok: bool)
      requires Valid() && 0 <= t < NR_TASKS && pending[t] == Idle
      modifies filp, count, pending
      ensures Valid()
      ensures ok <==> TwoOf(old(State()).count, 0) && TwoOf(old(State()).filp[t], NULL)
      ensures !ok ==> State() == old(State())
      ensures ok ==> exists fd0, fd1, f0, f1 ::
        Legal(old(State()), PipeStart(t, fd0, fd1, f0, f1)) && State() == Next(old(State()), PipeStart(t, fd0, fd1, f0, f1))
    {
      ghost var s := State();
      var f0, f1;
      ok, f0, f1 := TwoFiles();
      if !ok {
        return;
      }
      var fd0 := FreeFd(t, 0);
      var fd1 := if fd0 < NR_OPEN then fd0 + 1 else NR_OPEN;
      if fd0 < NR_OPEN {
        filp[t] := filp[t][fd0 := f0];
        fd1 := FreeFd(t, fd0 + 1);
      }
      if fd1 >= NR_OPEN {
        if fd0 < NR_OPEN {
          filp[t] := filp[t][fd0 := NULL];
        }
        assert filp[t] == s.filp[t];
        count[f0], count[f1] := 0, 0;
        assert State() == s;
        return false;
      }
      filp[t] := filp[t][fd1 := f1];
      pending[t] := Piping(fd0, fd1, f0, f1);
      PipeBeginInv(s, t, fd0, fd1, f0, f1);
      assert State() == PipeBegin(s, t, fd0, fd1, f0, f1);
      assert Legal(s, PipeStart(t, fd0, fd1, f0, f1));
    }

    method SysPipeEnd(t: int, gotInode: bool)
      requires Valid() && 0 <= t < NR_TASKS && pending[t].Piping?
      modifies filp, count, pending
      ensures Valid() && State() == Next(old(State()), PipeDone(t, gotInode))
    {
      ghost var s := State();
      PipeEndInv(s, t, gotInode);
      var Piping(fd0, fd1, f0, f1) := pending[t];
      if !gotInode {
        filp[t] := filp[t][fd0 := NULL][fd1 := NULL];
        count[f0], count[f1] := 0, 0;
      }
      pending[t] := Idle;
      assert State() == PipeEnd(s, t, gotInode);
    }

    /** The descriptor part of copy_process. */
    method CopyFiles(t: int, nr: int)
      requires Valid() && 0 <= t < NR_TASKS && Legal(State(), Forked(t, nr))
      modifies filp, count
      ensures Valid() && State() == Next(old(State()), Forked(t, nr))
      ensures filp[..] == old(filp[..])[nr := old(filp[t])]
      ensures forall f :: 0 <= f < NR_FILE ==> count[f] == old(count[f]) + |Descriptors(old(filp[t]), f, NR_OPEN)|
    {
      ghost var s := State();
      for i := 0 to NR_OPEN
        invariant filp[..] == s.filp && count.Length == NR_FILE
        invariant forall f :: 0 <= f < NR_FILE ==> count[f] == s.count[f] + Occurrences(s.filp[t], f, i)
      {
        var f := filp[t][i];
        if f != NULL {
          count[f] := count[f] + 1;
        }
      }
      filp[nr] := filp[t];
      ForkInv(s, t, nr);
      ForkLaw(s, t, nr);
      assert State() == Fork(s, t, nr);
    }

    /** The descriptor part of do_exit, also for a task that is killed inside open or pipe. */
    method CloseAll(t: int)
      requires Valid() && 0 <= t < NR_TASKS
      modifies filp, count, pending
      ensures Valid() && Unused(State(), t)
      ensures forall u :: 0 <= u < NR_TASKS && u != t ==> filp[u] == old(filp[u]) && pending[u] == old(pending[u])
    {
      ghost var s := State();
      AbandonInv(s, t);
      pending[t] := Idle;
      assert State() == Abandon(s, t);
      for i := 0 to NR_OPEN
        invariant Valid() && pending[t] == Idle
        invariant forall j :: 0 <= j < i ==> filp[t][j] == NULL
        invariant forall u :: 0 <= u < NR_TASKS && u != t ==> filp[u] == old(filp[u]) && pending[u] == old(pending[u])
      {
        if filp[t][i] != NULL {
          var closed := SysClose(t, i);
        }
      }
    }
  }
}
