/** fs/file_dev.c: reading and writing files refine a sequence of bytes. */
module FileData {
  import opened Bytes
  import opened BlockTree
  import opened FileSystems

  const MAX_SIZE: nat := MAX_BLOCKS * BLOCK_SIZE

  /** What the file holds: i_size bytes, holes reading as zero. */
  ghost function Content(fs: Fs, n: int): (c: seq<Byte>)
    requires Shape(fs) && 0 <= n < |fs.inodes|
    ensures |c| == fs.inodes[n].size
  {
    seq(fs.inodes[n].size, pos requires 0 <= pos => if pos < MAX_SIZE then FileByte(fs, n, pos) else 0)
  }

  /** The contents by bytes of the disk: byte pos % 1024 of block pos / 1024 of the file, zero where there is none. */
  lemma ContentInBytes(fs: Fs, n: int, pos: nat)
    requires Inv(fs) && 0 <= n < |fs.inodes| && fs.inodes[n].regularOrDir && pos < fs.inodes[n].size <= MAX_SIZE
    ensures |Content(fs, n)| == fs.inodes[n].size
    ensures exists b :: BlockIs(fs, n, pos / 1024, b) && (b == 0 || 0 < b < fs.nzones) && Content(fs, n)[pos] == (if b == 0 then 0 else fs.disk[b][pos % 1024])
  {
    FileInBytes(fs, n, pos);
  }

  /** Bytes past the end, in blocks that are allocated, are zero. */
  ghost predicate ZeroTail(fs: Fs, n: int)
    requires Shape(fs) && 0 <= n < |fs.inodes|
  {
    fs.inodes[n].regularOrDir ==>
      && fs.inodes[n].size <= MAX_SIZE
      && forall pos :: fs.inodes[n].size <= pos < MAX_SIZE ==> FileByte(fs, n, pos) == 0
  }

  ghost predicate FilesOk(fs: Fs) {
    Inv(fs) && forall n :: 0 <= n < |fs.inodes| ==> ZeroTail(fs, n)
  }

  /** data laid over c at pos; a gap between the end of c and pos is zero. */
  ghost function Splice(c: seq<Byte>, pos: nat, data: seq<Byte>): seq<Byte> {
    if data == [] then c else
      seq(if pos + |data| > |c| then pos + |data| else |c|,
          q requires 0 <= q => if pos <= q < pos + |data| then data[q - pos] else if q < |c| then c[q] else 0)
  }

  // ---------------------------------------------------------------- one block

  function Patch(b: Block, c: nat, data: seq<Byte>): (r: Block)
    requires c + |data| <= |b|
    ensures |r| == |b| && forall i :: 0 <= i < |b| ==> r[i] == if c <= i < c + |data| then data[i - c] else b[i]
  {
    b[..c] + data + b[c + |data|..]
  }

  function PatchFile(fs: Fs, n: int, k: nat, c: nat, data: seq<Byte>): Fs
    requires Shape(fs) && 0 <= n < |fs.inodes| && k < MAX_BLOCKS && 0 < Bmap(fs, n, k) < fs.nzones && c + |data| <= BLOCK_SIZE
  {
    var b := Bmap(fs, n, k);
    fs.(disk := fs.disk[b := Patch(fs.disk[b], c, data)])
  }

  /** Writing file data leaves every block map alone. */
  lemma PatchMap(fs: Fs, n: int, k: nat, c: nat, data: seq<Byte>)
    requires Inv(fs) && 0 <= n < |fs.inodes| && k < MAX_BLOCKS && Bmap(fs, n, k) != 0 && c + |data| <= BLOCK_SIZE
    ensures 0 < Bmap(fs, n, k) < fs.nzones && Shape(PatchFile(fs, n, k, c, data))
    ensures forall m, p :: 0 <= m < |fs.inodes| && Valid(p) ==> At(PatchFile(fs, n, k, c, data), m, p) == At(fs, m, p)
  {
    var p0, b := PathOf(k), Bmap(fs, n, k);
    assert Holds(fs, n, p0, b);
    forall m, p | 0 <= m < |fs.inodes| && Valid(p)
      ensures At(PatchFile(fs, n, k, c, data), m, p) == At(fs, m, p)
    {
      NotRoot(fs, n, p0, b, m, Zone(7));
      NotRoot(fs, n, p0, b, m, Zone(8));
      if p.DeepLeaf? {
        NotRoot(fs, n, p0, b, m, Middle(p.i));
      }
    }
  }

  /** An unchanged map keeps the invariant and leaks nothing. */
  lemma SameMap(fs: Fs, fs': Fs)
    requires Inv(fs) && Shape(fs') && |fs'.inodes| == |fs.inodes|
    requires fs'.zmap == fs.zmap && fs'.first == fs.first && fs'.nzones == fs.nzones
    requires forall m, p :: 0 <= m < |fs.inodes| && Valid(p) ==> At(fs', m, p) == At(fs, m, p)
    ensures Inv(fs') && (NoLeak(fs) ==> NoLeak(fs'))
  {
    forall m, p, x
      ensures Holds(fs', m, p, x) <==> Holds(fs, m, p, x)
    {
    }
    if NoLeak(fs) {
      forall x | Marked(fs', x)
        ensures exists m, p :: Holds(fs', m, p, x)
      {
        assert Marked(fs, x);
        var m, p :| Holds(fs, m, p, x);
        assert Holds(fs', m, p, x);
      }
    }
  }

  /** Writing file data changes those bytes of that file and no byte of another. */
  lemma PatchCorrect(fs: Fs, n: int, k: nat, c: nat, data: seq<Byte>)
    requires Inv(fs) && 0 <= n < |fs.inodes| && k < MAX_BLOCKS && Bmap(fs, n, k) != 0 && c + |data| <= BLOCK_SIZE
    ensures 0 < Bmap(fs, n, k) < fs.nzones && Inv(PatchFile(fs, n, k, c, data))
    ensures forall m, pos :: 0 <= m < |fs.inodes| && 0 <= pos < MAX_SIZE ==>
      FileByte(PatchFile(fs, n, k, c, data), m, pos) ==
        if m == n && k * BLOCK_SIZE + c <= pos < k * BLOCK_SIZE + c + |data| then data[pos - k * BLOCK_SIZE - c] else FileByte(fs, m, pos)
    ensures NoLeak(fs) ==> NoLeak(PatchFile(fs, n, k, c, data))
  {
    PatchMap(fs, n, k, c, data);
    SameMap(fs, PatchFile(fs, n, k, c, data));
    forall m, pos | 0 <= m < |fs.inodes| && 0 <= pos < MAX_SIZE
      ensures FileByte(PatchFile(fs, n, k, c, data), m, pos) ==
        if m == n && k * BLOCK_SIZE + c <= pos < k * BLOCK_SIZE + c + |data| then data[pos - k * BLOCK_SIZE - c] else FileByte(fs, m, pos)
    {
      PatchByte(fs, n, k, c, data, m, pos);
    }
  }

  lemma PatchByte(fs: Fs, n: int, k: nat, c: nat, data: seq<Byte>, m: int, pos: nat)
    requires Inv(fs) && 0 <= n < |fs.inodes| && k < MAX_BLOCKS && 0 < Bmap(fs, n, k) < fs.nzones && c + |data| <= BLOCK_SIZE
    requires Shape(PatchFile(fs, n, k, c, data)) && 0 <= m < |fs.inodes| && pos < MAX_SIZE
    requires Bmap(PatchFile(fs, n, k, c, data), m, pos / BLOCK_SIZE) == Bmap(fs, m, pos / BLOCK_SIZE)
    ensures FileByte(PatchFile(fs, n, k, c, data), m, pos) ==
      if m == n && k * BLOCK_SIZE + c <= pos < k * BLOCK_SIZE + c + |data| then data[pos - k * BLOCK_SIZE - c] else FileByte(fs, m, pos)
  {
    var b, l := Bmap(fs, n, k), pos / BLOCK_SIZE;
    assert Holds(fs, n, PathOf(k), b);
    if Bmap(fs, m, l) == b {
      assert Holds(fs, m, PathOf(l), b);
      PathOfInjective(k, l);
    }
    assert pos == l * BLOCK_SIZE + pos % BLOCK_SIZE;
  }

  lemma NotRoot(fs: Fs, n: int, p0: Path, b: int, m: int, root: Path)
    requires Inv(fs) && Holds(fs, n, p0, b) && !Root(p0) && 0 <= m < |fs.inodes| && Valid(root) && Root(root)
    ensures At(fs, m, root) != b
  {
    assert At(fs, m, root) == b ==> Holds(fs, m, root, b);
  }

  // ---------------------------------------------------------------- file_write

  /** After writing data at pos0 into file n: those bytes, that size, nothing else. */
  ghost predicate Written(fs: Fs, fs': Fs, n: int, pos0: nat, data: seq<Byte>)
    requires Shape(fs) && Shape(fs')
  {
    && SameSpecials(fs, fs') && 0 <= n < |fs.inodes| && fs.inodes[n].regularOrDir
    && (forall m :: 0 <= m < |fs.inodes| ==> fs'.inodes[m].regularOrDir == fs.inodes[m].regularOrDir)
    && (forall m, pos :: 0 <= m < |fs.inodes| && 0 <= pos < MAX_SIZE ==>
          FileByte(fs', m, pos) == if m == n && pos0 <= pos < pos0 + |data| then data[pos - pos0] else FileByte(fs, m, pos))
    && (forall m :: 0 <= m < |fs.inodes| ==>
          fs'.inodes[m].size == if m == n && data != [] && pos0 + |data| > fs.inodes[n].size then pos0 + |data| else fs.inodes[m].size)
    && (NoLeak(fs) ==> NoLeak(fs'))
  }

  function WithSize(fs: Fs, n: int, size: nat): Fs
    requires 0 <= n < |fs.inodes|
  {
    fs.(inodes := fs.inodes[n := fs.inodes[n].(size := size)])
  }

  /** i_size takes no part in the block map. */
  lemma SizeIsFree(fs: Fs, n: int, size: nat)
    requires Inv(fs) && 0 <= n < |fs.inodes|
    ensures Inv(WithSize(fs, n, size))
    ensures forall m, p :: 0 <= m < |fs.inodes| && Valid(p) ==> At(WithSize(fs, n, size), m, p) == At(fs, m, p)
    ensures forall m, pos :: 0 <= m < |fs.inodes| && 0 <= pos < MAX_SIZE ==> FileByte(WithSize(fs, n, size), m, pos) == FileByte(fs, m, pos)
    ensures NoLeak(fs) ==> NoLeak(WithSize(fs, n, size))
  {
    SameMap(fs, WithSize(fs, n, size));
  }

  function Larger(a: nat, b: nat): nat { if a > b then a else b }

  /** One turn of file_write's loop: the size is raised and part of one block, already there, is filled. */
  ghost function Turn(fs: Fs, n: int, pos: nat, more: seq<Byte>): Fs
    requires Inv(fs) && 0 <= n < |fs.inodes| && pos < MAX_SIZE && pos % BLOCK_SIZE + |more| <= BLOCK_SIZE
    requires Bmap(fs, n, pos / BLOCK_SIZE) != 0
  {
    var fs2 := WithSize(fs, n, Larger(pos + |more|, fs.inodes[n].size));
    SizeIsFree(fs, n, fs2.inodes[n].size);
    assert Holds(fs2, n, PathOf(pos / BLOCK_SIZE), Bmap(fs2, n, pos / BLOCK_SIZE));
    PatchFile(fs2, n, pos / BLOCK_SIZE, pos % BLOCK_SIZE, more)
  }

  lemma TurnBytes(fs: Fs, n: int, pos: nat, more: seq<Byte>)
    requires Inv(fs) && 0 <= n < |fs.inodes| && pos + |more| <= MAX_SIZE && more != [] && pos % BLOCK_SIZE + |more| <= BLOCK_SIZE
    requires Bmap(fs, n, pos / BLOCK_SIZE) != 0
    ensures Inv(Turn(fs, n, pos, more)) && Written(fs, Turn(fs, n, pos, more), n, pos, more)
  {
    SizeIsFree(fs, n, Larger(pos + |more|, fs.inodes[n].size));
    var fs2 := WithSize(fs, n, Larger(pos + |more|, fs.inodes[n].size));
    PatchCorrect(fs2, n, pos / BLOCK_SIZE, pos % BLOCK_SIZE, more);
    assert pos / BLOCK_SIZE * BLOCK_SIZE + pos % BLOCK_SIZE == pos;
  }

  /** Writing done and then more behind it is writing both. */
  lemma WrittenTwice(fs: Fs, fs1: Fs, fs2: Fs, n: int, pos0: nat, done: seq<Byte>, more: seq<Byte>)
    requires Shape(fs) && Shape(fs1) && Shape(fs2)
    requires Written(fs, fs1, n, pos0, done) && Written(fs1, fs2, n, pos0 + |done|, more)
    ensures Written(fs, fs2, n, pos0, done + more)
  {
    forall m, q | 0 <= m < |fs.inodes| && 0 <= q < MAX_SIZE
      ensures FileByte(fs2, m, q) == if m == n && pos0 <= q < pos0 + |done + more| then (done + more)[q - pos0] else FileByte(fs, m, q)
    {
      assert FileByte(fs1, m, q) == if m == n && pos0 <= q < pos0 + |done| then done[q - pos0] else FileByte(fs, m, q);
    }
  }

  lemma GrownIsWritten(fs: Fs, fs': Fs, n: int, pos: nat, route: set<Path>)
    requires Shape(fs) && Shape(fs') && 0 <= n < |fs.inodes| && fs.inodes[n].regularOrDir && Grown(fs, fs', n, route)
    ensures Written(fs, fs', n, pos, [])
  {
  }

  /** That turn in place: raise i_size, then copy byte by byte. */
  method WriteInBlock(d: FileSystem, n: int, pos: nat, more: seq<Byte>, block: int)
    requires d.Ok() && 0 <= n < d.inodes.Length
    requires more != [] && pos + |more| <= MAX_SIZE && pos % BLOCK_SIZE + |more| <= BLOCK_SIZE
    requires block == Bmap(d.State(), n, pos / BLOCK_SIZE) && block != 0
    modifies d.disk, d.inodes
    ensures d.Ok() && Written(old(d.State()), d.State(), n, pos, more)
  {
    ghost var fs := d.State();
    assert Holds(fs, n, PathOf(pos / BLOCK_SIZE), block);
    TurnBytes(fs, n, pos, more);
    if pos + |more| > d.inodes[n].size {
      d.inodes[n] := d.inodes[n].(size := pos + |more|);
    }
    CopyBytes(d.disk, block, pos % BLOCK_SIZE, more);
    assert d.inodes[..] == fs.inodes[n := fs.inodes[n].(size := Larger(pos + |more|, fs.inodes[n].size))];
    SizeIsFree(fs, n, Larger(pos + |more|, fs.inodes[n].size));
    assert d.State() == Turn(fs, n, pos, more);
  }

  method CopyBytes(disk: array<Block>, block: int, c: nat, data: seq<Byte>)
    requires 0 <= block < disk.Length && c + |data| <= |disk[block]|
    modifies disk
    ensures disk[..] == old(disk[..])[block := Patch(old(disk[block]), c, data)]
  {
    ghost var b := disk[block];
    for x := 0 to |data|
      invariant |disk[block]| == |b|
      invariant forall i :: 0 <= i < |b| ==> disk[block][i] == if c <= i < c + x then data[i - c] else b[i]
      invariant forall k :: 0 <= k < disk.Length && k != block ==> disk[k] == old(disk[k])
    {
      disk[block] := disk[block][c + x := data[x]];
    }
    assert disk[block] == Patch(b, c, data);
  }

  lemma WrittenContent(fs: Fs, fs': Fs, n: int, pos0: nat, data: seq<Byte>)
    requires FilesOk(fs) && Inv(fs') && Written(fs, fs', n, pos0, data) && pos0 + |data| <= MAX_SIZE
    ensures FilesOk(fs') && Kinds(fs') == Kinds(fs) && Content(fs', n) == Splice(Content(fs, n), pos0, data)
    ensures forall m :: 0 <= m < |fs.inodes| && m != n ==> Content(fs', m) == Content(fs, m)
  {
    forall m | 0 <= m < |fs'.inodes|
      ensures ZeroTail(fs', m)
    {
      assert ZeroTail(fs, m);
    }
    var c, c' := Content(fs, n), Content(fs', n);
    assert ZeroTail(fs, n);
    forall q | 0 <= q < |c'|
      ensures q < |Splice(c, pos0, data)| && c'[q] == Splice(c, pos0, data)[q]
    {
      assert FileByte(fs', n, q) == if pos0 <= q < pos0 + |data| then data[q - pos0] else FileByte(fs, n, q);
    }
    forall m | 0 <= m < |fs.inodes| && m != n
      ensures Content(fs', m) == Content(fs, m)
    {
      assert ZeroTail(fs, m);
    }
  }

  /** One turn of file_write: c bytes of rest are written at pos, none when the device is full. */
  method WriteTurn(d: FileSystem, n: int, pos: nat, rest: seq<Byte>) returns (c: nat)
    requires d.Ok() && 0 <= n < d.inodes.Length && d.inodes[n].regularOrDir && rest != [] && pos + |rest| <= MAX_SIZE
    modifies d.zmap, d.disk, d.inodes
    ensures d.Ok() && c <= |rest| && Written(old(d.State()), d.State(), n, pos, rest[..c])
    ensures c == 0 ==> Full(d.State())
  {
    ghost var fs := d.State();
    var block := d.BlockMap(n, pos / BLOCK_SIZE, true);
    ghost var fs1 := d.State();
    GrownIsWritten(fs, fs1, n, pos, Route(pos / BLOCK_SIZE));
    if block == 0 {
      return 0;
    }
    c := BLOCK_SIZE - pos % BLOCK_SIZE;
    if c > |rest| {
      c := |rest|;
    }
    WriteInBlock(d, n, pos, rest[..c], block);
    WrittenTwice(fs, fs1, d.State(), n, pos, [], rest[..c]);
    assert [] + rest[..c] == rest[..c];
  }

  /** The loop of file_write. */
  method WriteAll(d: FileSystem, n: int, pos: nat, buf: seq<Byte>) returns (i: nat)
    requires d.Ok() && 0 <= n < d.inodes.Length && d.inodes[n].regularOrDir && pos + |buf| <= MAX_SIZE
    modifies d.zmap, d.disk, d.inodes
    ensures d.Ok() && i <= |buf| && Written(old(d.State()), d.State(), n, pos, buf[..i])
    ensures i < |buf| ==> Full(d.State())
  {
    ghost var fs := d.State();
    i := 0;
    assert buf[..0] == [];
    while i < |buf|
      invariant i <= |buf| && d.Ok() && Written(fs, d.State(), n, pos, buf[..i])
    {
      ghost var fs1 := d.State();
      var c := WriteTurn(d, n, pos + i, buf[i..]);
      WrittenTwice(fs, fs1, d.State(), n, pos, buf[..i], buf[i..][..c]);
      assert buf[..i] + buf[i..][..c] == buf[..i + c];
      i := i + c;
      if c == 0 {
        break;
      }
    }
  }

  /** file_write.  The result is the number of bytes written, or -1 when none was. */
  method FileWrite(d: FileSystem, n: int, fpos: nat, append: bool, buf: seq<Byte>) returns (r: int, fpos': nat)
    requires d.Ok() && FilesOk(d.State()) && 0 <= n < d.inodes.Length && d.inodes[n].regularOrDir
    requires (if append then d.inodes[n].size else fpos) + |buf| <= MAX_SIZE
    modifies d.zmap, d.disk, d.inodes
    ensures d.Ok() && FilesOk(d.State()) && (NoLeak(old(d.State())) ==> NoLeak(d.State()))
    ensures Kinds(d.State()) == Kinds(old(d.State())) && SameSpecials(old(d.State()), d.State())
    ensures r == -1 || 0 < r <= |buf|
    ensures var pos, i := (if append then old(d.State()).inodes[n].size else fpos), (if r == -1 then 0 else r);
      && fpos' == (if append then fpos else pos + i)
      && Content(d.State(), n) == Splice(Content(old(d.State()), n), pos, buf[..i])
      && (i < |buf| ==> Full(d.State()))
    ensures forall m :: 0 <= m < d.inodes.Length && m != n ==> Content(d.State(), m) == Content(old(d.State()), m)
  {
    ghost var fs := d.State();
    var pos := if append then d.inodes[n].size else fpos;
    var i := WriteAll(d, n, pos, buf);
    WrittenContent(fs, d.State(), n, pos, buf[..i]);
    fpos' := if append then fpos else pos + i;
    r := if i == 0 then -1 else i;
  }

  // ---------------------------------------------------------------- file_read

  /** file_read of count bytes from fpos, which the caller has clamped. */
  method FileRead(d: FileSystem, n: int, fpos: nat, count: nat) returns (buf: seq<Byte>, fpos': nat)
    requires d.Ok() && 0 <= n < d.inodes.Length && d.inodes[n].regularOrDir && fpos + count <= MAX_SIZE
    modifies d.zmap, d.disk, d.inodes
    ensures d.State() == old(d.State())
    ensures fpos' == fpos + count && |buf| == count
    ensures forall q :: 0 <= q < count ==> buf[q] == FileByte(d.State(), n, fpos + q)
  {
    buf, fpos' := [], fpos;
    var left := count;
    while left > 0
      invariant 0 <= left <= count && fpos' == fpos + (count - left) && |buf| == count - left
      invariant d.Ok() && d.State() == old(d.State())
      invariant forall q :: 0 <= q < |buf| ==> buf[q] == FileByte(d.State(), n, fpos + q)
    {
      var block := d.BlockMap(n, fpos' / BLOCK_SIZE, false);
      var nr := fpos' % BLOCK_SIZE;
      var chars := if BLOCK_SIZE - nr < left then BLOCK_SIZE - nr else left;
      assert block == 0 || Holds(d.State(), n, PathOf(fpos' / BLOCK_SIZE), block);
      var piece := Piece(d, block, nr, chars);
      InOneBlock(d.State(), n, fpos', chars, block, piece);
      buf := buf + piece;
      fpos' := fpos' + chars;
      left := left - chars;
    }
  }

  /** chars bytes of a block from nr on, or zeros where there is no block. */
  method Piece(d: FileSystem, block: int, nr: nat, chars: nat) returns (piece: seq<Byte>)
    requires d.Ok() && nr + chars <= BLOCK_SIZE && (block == 0 || 0 < block < d.nzones)
    ensures |piece| == chars
    ensures forall q :: 0 <= q < chars ==> piece[q] == if block == 0 then 0 else d.State().disk[block][nr + q]
  {
    piece := [];
    for q := 0 to chars
      invariant |piece| == q
      invariant forall j :: 0 <= j < q ==> piece[j] == if block == 0 then 0 else d.disk[block][nr + j]
    {
      piece := piece + [if block == 0 then 0 else d.disk[block][nr + q]];
    }
  }

  lemma InOneBlock(fs: Fs, n: int, pos: nat, chars: nat, block: int, piece: seq<Byte>)
    requires Inv(fs) && 0 <= n < |fs.inodes| && pos + chars <= MAX_SIZE && pos % BLOCK_SIZE + chars <= BLOCK_SIZE
    requires pos < MAX_SIZE && block == Bmap(fs, n, pos / BLOCK_SIZE) && |piece| == chars && (block == 0 || 0 < block < fs.nzones)
    requires forall q :: 0 <= q < chars ==> piece[q] == if block == 0 then 0 else fs.disk[block][pos % BLOCK_SIZE + q]
    ensures forall q :: 0 <= q < chars ==> piece[q] == FileByte(fs, n, pos + q)
  {
    forall q | 0 <= q < chars
      ensures piece[q] == FileByte(fs, n, pos + q)
    {
      assert (pos + q) / BLOCK_SIZE == pos / BLOCK_SIZE && (pos + q) % BLOCK_SIZE == pos % BLOCK_SIZE + q;
    }
  }

  /** The regular-file part of sys_read: the bytes from fpos to the end of the file, count at most. */
  method SysRead(d: FileSystem, n: int, fpos: nat, count: nat) returns (buf: seq<Byte>, fpos': nat)
    requires d.Ok() && FilesOk(d.State()) && 0 <= n < d.inodes.Length && d.inodes[n].regularOrDir
    modifies d.zmap, d.disk, d.inodes
    ensures d.State() == old(d.State()) && fpos' == fpos + |buf|
    ensures var c := Content(d.State(), n);
      buf == if fpos >= |c| then [] else if fpos + count > |c| then c[fpos..] else c[fpos..fpos + count]
  {
    assert ZeroTail(d.State(), n);
    var want: int := count;
    if want + fpos > d.inodes[n].size {
      want := d.inodes[n].size - fpos;
    }
    if want <= 0 {
      return [], fpos;
    }
    buf, fpos' := FileRead(d, n, fpos, want);
    forall q | 0 <= q < want
      ensures buf[q] == Content(d.State(), n)[fpos + q]
    {
    }
    assert buf == Content(d.State(), n)[fpos..fpos + want];
  }

  /** truncate empties one file and leaves the contents of all others. */
  lemma TruncatedContent(fs: Fs, fs': Fs, n: int)
    requires FilesOk(fs) && Inv(fs') && Truncated(fs, fs', n)
    ensures FilesOk(fs') && Content(fs', n) == []
    ensures forall m :: 0 <= m < |fs.inodes| && m != n ==> Content(fs', m) == Content(fs, m)
  {
    forall m | 0 <= m < |fs.inodes|
      ensures ZeroTail(fs', m) && (m != n ==> Content(fs', m) == Content(fs, m))
    {
      assert ZeroTail(fs, m);
    }
  }

  // ---------------------------------------------------------------- runs

  /** The reference: each file is a sequence of bytes. */
  type Files = seq<seq<Byte>>

  datatype Op = Write(n: int, pos: nat, append: bool, buf: seq<Byte>) | Read(n: int, pos: nat, count: nat) | Trunc(n: int)

  /** Reads and writes of files with a tree that do not run into the panic of _bmap, and all truncations. */
  predicate Legal(files: Files, kinds: seq<bool>, op: Op) {
    0 <= op.n < |files| == |kinds| && (op.Trunc? || kinds[op.n]) && (op.Write? ==> (if op.append then |files[op.n]| else op.pos) + |op.buf| <= MAX_SIZE)
  }

  ghost function SpecStep(files: Files, kinds: seq<bool>, op: Op, r: int): Files
    requires |kinds| == |files|
  {
    if !Legal(files, kinds, op) then files else
    match op
    case Write(n, pos, append, buf) =>
      files[n := Splice(files[n], if append then |files[n]| else pos, if 0 <= r <= |buf| then buf[..r] else [])]
    case Read(_, _, _) => files
    case Trunc(n) => if kinds[n] then files[n := []] else files
  }

  /** What a read delivers. */
  ghost function SpecRead(files: Files, kinds: seq<bool>, op: Op): seq<Byte> {
    if !Legal(files, kinds, op) || !op.Read? || op.pos >= |files[op.n]| then []
    else if op.pos + op.count > |files[op.n]| then files[op.n][op.pos..]
    else files[op.n][op.pos..op.pos + op.count]
  }

  /** A write of data that fits: those bytes, zeros in a gap, the rest of the file and every other file as before. */
  lemma WriteLaw(files: Files, kinds: seq<bool>, n: int, pos: nat, buf: seq<Byte>, r: nat)
    requires |kinds| == |files| && Legal(files, kinds, Write(n, pos, false, buf)) && 0 < r <= |buf|
    ensures var files' := SpecStep(files, kinds, Write(n, pos, false, buf), r);
      && |files'| == |files| && |files'[n]| == (if pos + r > |files[n]| then pos + r else |files[n]|)
      && (forall q :: 0 <= q < |files'[n]| ==> files'[n][q] == if pos <= q < pos + r then buf[q - pos] else if q < |files[n]| then files[n][q] else 0)
      && (forall m :: 0 <= m < |files| && m != n ==> files'[m] == files[m])
  {
  }

  /** Appending writes at the end. */
  lemma AppendLaw(files: Files, kinds: seq<bool>, n: int, pos: nat, buf: seq<Byte>, r: nat)
    requires |kinds| == |files| && Legal(files, kinds, Write(n, pos, true, buf)) && r <= |buf|
    ensures var files' := SpecStep(files, kinds, Write(n, pos, true, buf), r);
      files'[n] == files[n] + buf[..r] && forall m :: 0 <= m < |files| && m != n ==> files'[m] == files[m]
  {
    if r > 0 {
      assert SpecStep(files, kinds, Write(n, pos, true, buf), r)[n] == files[n] + buf[..r];
    }
  }

  /** A read delivers the bytes from pos on, count at most, up to the end; a truncation leaves nothing. */
  lemma ReadTruncLaw(files: Files, kinds: seq<bool>, n: int, pos: nat, count: nat, r: int)
    requires |kinds| == |files| && 0 <= n < |files| && kinds[n]
    ensures var out := SpecRead(files, kinds, Read(n, pos, count));
      && |out| == (if pos >= |files[n]| then 0 else if count < |files[n]| - pos then count else |files[n]| - pos)
      && (forall q :: 0 <= q < |out| ==> out[q] == files[n][pos + q])
    ensures SpecStep(files, kinds, Read(n, pos, count), r) == files
    ensures var files' := SpecStep(files, kinds, Trunc(n), r); files'[n] == [] && forall m :: 0 <= m < |files| && m != n ==> files'[m] == files[m]
  {
  }

  /** What was just written is read back. */
  lemma ReadsBack(files: Files, kinds: seq<bool>, n: int, pos: nat, buf: seq<Byte>, r: nat)
    requires |kinds| == |files| && Legal(files, kinds, Write(n, pos, false, buf)) && 0 < r <= |buf|
    ensures SpecRead(SpecStep(files, kinds, Write(n, pos, false, buf), r), kinds, Read(n, pos, r)) == buf[..r]
  {
    WriteLaw(files, kinds, n, pos, buf, r);
    ReadTruncLaw(SpecStep(files, kinds, Write(n, pos, false, buf), r), kinds, n, pos, r, 0);
  }

  /** A run is its calls one after the other. */
  lemma RunLaw(files: Files, kinds: seq<bool>, ops: seq<Op>, rs: seq<int>, op: Op, r: int)
    requires |kinds| == |files| && |rs| == |ops|
    ensures SpecRun(files, kinds, ops + [op], rs + [r]) == SpecStep(SpecRun(files, kinds, ops, rs), kinds, op, r)
    ensures SpecRun(files, kinds, [], []) == files
  {
    assert (ops + [op])[..|ops|] == ops && (rs + [r])[..|rs|] == rs;
  }

  ghost function SpecRun(files: Files, kinds: seq<bool>, ops: seq<Op>, rs: seq<int>): (files': Files)
    requires |kinds| == |files| && |rs| == |ops|
    ensures |files'| == |files|
  {
    if ops == [] then files else
      SpecStep(SpecRun(files, kinds, ops[..|ops| - 1], rs[..|ops| - 1]), kinds, ops[|ops| - 1], rs[|ops| - 1])
  }

  ghost function Contents(fs: Fs): (c: Files)
    requires Shape(fs)
    ensures |c| == |fs.inodes| && forall n :: 0 <= n < |c| ==> c[n] == Content(fs, n)
  {
    seq(|fs.inodes|, n requires 0 <= n < |fs.inodes| => Content(fs, n))
  }

  ghost function Kinds(fs: Fs): seq<bool> {
    seq(|fs.inodes|, n requires 0 <= n < |fs.inodes| => fs.inodes[n].regularOrDir)
  }

  /** A device from which runs can start: every file is empty, and device nodes are whatever they are. */
  method EmptyDevice(firstZone: nat, zones: nat, bits: nat, nodes: seq<Inode>) returns (d: FileSystem)
    requires 1 <= firstZone <= zones < 0x1_0000 && zones - firstZone < bits && forall n :: 0 <= n < |nodes| ==> Unwritten(nodes[n])
    ensures fresh(d) && fresh(d.zmap) && fresh(d.disk) && fresh(d.inodes) && d.Ok() && FilesOk(d.State()) && NoLeak(d.State()) && d.State().inodes == nodes
    ensures forall n :: 0 <= n < |nodes| && nodes[n].regularOrDir ==> Contents(d.State())[n] == []
  {
    d := new FileSystem(firstZone, zones, bits, nodes);
    forall n | 0 <= n < |nodes|
      ensures ZeroTail(d.State(), n)
    {
      assert nodes[n].regularOrDir ==> forall p, b :: !Holds(d.State(), n, p, b);
      assert forall pos :: 0 <= pos < MAX_SIZE ==> FileByte(d.State(), n, pos) == 0;
    }
  }

  /** A write, against the reference. */
  method WriteStep(d: FileSystem, op: Op) returns (r: int)
    requires d.Ok() && FilesOk(d.State()) && op.Write? && Legal(Contents(d.State()), Kinds(d.State()), op)
    modifies d.zmap, d.disk, d.inodes
    ensures d.Ok() && FilesOk(d.State()) && Kinds(d.State()) == Kinds(old(d.State())) && SameSpecials(old(d.State()), d.State())
    ensures NoLeak(old(d.State())) ==> NoLeak(d.State())
    ensures Contents(d.State()) == SpecStep(Contents(old(d.State())), Kinds(old(d.State())), op, r)
    ensures op.buf != [] && r < |op.buf| ==> Full(d.State())
  {
    var after;
    r, after := FileWrite(d, op.n, op.pos, op.append, op.buf);
  }

  /** One call, against the reference. */
  method Step(d: FileSystem, op: Op) returns (r: int, out: seq<Byte>)
    requires d.Ok() && FilesOk(d.State())
    modifies d.zmap, d.disk, d.inodes
    ensures d.Ok() && FilesOk(d.State()) && Kinds(d.State()) == Kinds(old(d.State())) && SameSpecials(old(d.State()), d.State())
    ensures NoLeak(old(d.State())) ==> NoLeak(d.State())
    ensures Contents(d.State()) == SpecStep(Contents(old(d.State())), Kinds(old(d.State())), op, r)
    ensures out == SpecRead(Contents(old(d.State())), Kinds(old(d.State())), op)
    ensures op.Write? && op.buf != [] && r < |op.buf| && Legal(Contents(old(d.State())), Kinds(old(d.State())), op) ==> Full(d.State())
  {
    r, out := 0, [];
    ghost var fs := d.State();
    if op.n < 0 || op.n >= d.inodes.Length {
      return;
    }
    match op {
      case Write(n, pos, append, buf) =>
        if d.inodes[n].regularOrDir && (if append then d.inodes[n].size else pos) + |buf| <= MAX_SIZE {
          r := WriteStep(d, op);
        }
      case Read(n, pos, count) =>
        if d.inodes[n].regularOrDir {
          var after;
          out, after := SysRead(d, n, pos, count);
        }
      case Trunc(n) =>
        d.Truncate(n);
        if fs.inodes[n].regularOrDir {
          TruncatedContent(fs, d.State(), n);
        }
    }
  }

  /** Over every run of reads, writes and truncations, every read returns what plain byte sequences would. */
  method Run(d: FileSystem, ops: seq<Op>) returns (rs: seq<int>, outs: seq<seq<Byte>>)
    requires d.Ok() && FilesOk(d.State())
    modifies d.zmap, d.disk, d.inodes
    ensures d.Ok() && FilesOk(d.State()) && |rs| == |outs| == |ops| && SameSpecials(old(d.State()), d.State())
    ensures NoLeak(old(d.State())) ==> NoLeak(d.State())
    ensures Contents(d.State()) == SpecRun(Contents(old(d.State())), Kinds(old(d.State())), ops, rs)
    ensures forall k :: 0 <= k < |ops| ==> outs[k] == SpecRead(SpecRun(Contents(old(d.State())), Kinds(old(d.State())), ops[..k], rs[..k]), Kinds(old(d.State())), ops[k])
  {
    rs, outs := [], [];
    ghost var files, kinds := Contents(d.State()), Kinds(d.State());
    for k := 0 to |ops|
      invariant d.Ok() && FilesOk(d.State()) && Kinds(d.State()) == kinds && |rs| == |outs| == k && SameSpecials(old(d.State()), d.State())
      invariant NoLeak(old(d.State())) ==> NoLeak(d.State())
      invariant Contents(d.State()) == SpecRun(files, kinds, ops[..k], rs)
      invariant forall j :: 0 <= j < k ==> outs[j] == SpecRead(SpecRun(files, kinds, ops[..j], rs[..j]), kinds, ops[j])
    {
      var r, out := Step(d, ops[k]);
      assert ops[..k + 1][..k] == ops[..k] && (rs + [r])[..k] == rs;
      assert forall j :: 0 <= j < k ==> (rs + [r])[..j] == rs[..j];
      rs, outs := rs + [r], outs + [out];
    }
    assert ops[..|ops|] == ops;
  }
}
