/** The three-level block map of fs/inode.c over the zone bitmap of fs/bitmap.c, as values.

    A disk block is 1024 bytes.  A pointer block is a disk block read as 512 sixteen-bit
    numbers, so file data and block map live in the same space and only the distinctness
    of block numbers keeps one from overwriting the other.
 */
module BlockTree {
  import opened Bytes

  type Block = seq<Byte>

  const BLOCK_SIZE: nat := 1024
  const PER_BLOCK: nat := 512
  const MAX_BLOCKS: nat := 7 + 512 + 512 * 512

  /** zone[0..7] direct, zone[7] indirect, zone[8] double indirect; 0 means none. */
  datatype Inode = Inode(zone: seq<int>, size: nat, regularOrDir: bool)

  /** Bit i of zmap stands for block first - 1 + i. */
  datatype Fs = Fs(first: nat, nzones: nat, zmap: seq<bool>, disk: seq<Block>, inodes: seq<Inode>)

  // ---------------------------------------------------------------- sixteen-bit entries

  function WordAt(b: Block, i: nat): nat
    requires |b| == BLOCK_SIZE && i < PER_BLOCK
  {
    b[2 * i] as nat + 256 * b[2 * i + 1] as nat
  }

  function SetWord(b: Block, i: nat, v: nat): Block
    requires |b| == BLOCK_SIZE && i < PER_BLOCK && v < 0x1_0000
  {
    b[2 * i := (v % 256) as Byte][2 * i + 1 := (v / 256) as Byte]
  }

  lemma SetWordAt(b: Block, i: nat, v: nat, j: nat)
    requires |b| == BLOCK_SIZE && i < PER_BLOCK && v < 0x1_0000 && j < PER_BLOCK
    ensures |SetWord(b, i, v)| == BLOCK_SIZE
    ensures WordAt(SetWord(b, i, v), j) == if j == i then v else WordAt(b, j)
  {
  }

  function ZeroBlock(): (b: Block)
    ensures |b| == BLOCK_SIZE && forall i :: 0 <= i < BLOCK_SIZE ==> b[i] == 0
  {
    seq(BLOCK_SIZE, i => 0 as Byte)
  }

  // ---------------------------------------------------------------- paths

  /** A place in an inode's tree that can hold a block number. */
  datatype Path = Zone(i: int) | Leaf(i: int) | Middle(i: int) | DeepLeaf(i: int, j: int)

  predicate Valid(p: Path) {
    match p
    case Zone(i) => 0 <= i < 9
    case Leaf(i) => 0 <= i < PER_BLOCK
    case Middle(i) => 0 <= i < PER_BLOCK
    case DeepLeaf(i, j) => 0 <= i < PER_BLOCK && 0 <= j < PER_BLOCK
  }

  predicate Shape(fs: Fs) {
    && 1 <= fs.first <= fs.nzones < 0x1_0000
    && fs.nzones - fs.first < |fs.zmap| && fs.zmap[0]
    && |fs.disk| == fs.nzones
    && (forall b :: 0 <= b < |fs.disk| ==> |fs.disk[b]| == BLOCK_SIZE)
    && (forall n :: 0 <= n < |fs.inodes| ==> |fs.inodes[n].zone| == 9)
  }

  predicate InZone(fs: Fs, b: int) { fs.first <= b < fs.nzones }

  predicate Marked(fs: Fs, b: int)
    requires Shape(fs)
  {
    InZone(fs, b) && fs.zmap[b - fs.first + 1]
  }

  /** Entry i of block b, or 0 when b is not a block. */
  function Entry(fs: Fs, b: int, i: int): int
    requires Shape(fs) && 0 <= i < PER_BLOCK
  {
    if 0 < b < fs.nzones then WordAt(fs.disk[b], i) else 0
  }

  /** The block number at path p of inode n; 0 if there is none.  The inode of a device or a pipe has no tree: its zones
      hold other things, such as a device number. */
  function At(fs: Fs, n: int, p: Path): int
    requires Shape(fs) && 0 <= n < |fs.inodes| && Valid(p)
  {
    if !fs.inodes[n].regularOrDir then 0 else
    match p
    case Zone(i) => fs.inodes[n].zone[i]
    case Leaf(i) => Entry(fs, fs.inodes[n].zone[7], i)
    case Middle(i) => Entry(fs, fs.inodes[n].zone[8], i)
    case DeepLeaf(i, j) => Entry(fs, Entry(fs, fs.inodes[n].zone[8], i), j)
  }

  predicate Root(p: Path) { p == Zone(7) || p == Zone(8) || p.Middle? }

  /** The path of entry j of the pointer block at root. */
  function Child(root: Path, j: int): Path
    requires Root(root)
  {
    if root == Zone(7) then Leaf(j) else if root == Zone(8) then Middle(j) else DeepLeaf(root.i, j)
  }

  lemma ChildAt(fs: Fs, n: int, root: Path, j: int)
    requires Shape(fs) && 0 <= n < |fs.inodes| && Root(root) && Valid(root) && 0 <= j < PER_BLOCK
    ensures Valid(Child(root, j)) && At(fs, n, Child(root, j)) == Entry(fs, At(fs, n, root), j)
  {
  }

  // ---------------------------------------------------------------- the invariant

  ghost predicate Holds(fs: Fs, n: int, p: Path, b: int)
    requires Shape(fs)
  {
    0 <= n < |fs.inodes| && Valid(p) && At(fs, n, p) == b && b != 0
  }

  /** The inodes that have no tree are as they were. */
  predicate SameSpecials(fs: Fs, fs': Fs) {
    && |fs'.inodes| == |fs.inodes|
    && forall n :: 0 <= n < |fs.inodes| && !fs.inodes[n].regularOrDir ==> fs'.inodes[n] == fs.inodes[n]
  }

  /** Every block number in a tree is a data block that is marked in the bitmap ... */
  ghost predicate InUse(fs: Fs)
    requires Shape(fs)
  {
    forall n, p, b :: Holds(fs, n, p, b) ==> Marked(fs, b)
  }

  /** ... no block has two places ... */
  ghost predicate Distinct(fs: Fs)
    requires Shape(fs)
  {
    forall n, p, n', p', b :: Holds(fs, n, p, b) && Holds(fs, n', p', b) ==> n == n' && p == p'
  }

  /** ... and every marked block has one. */
  ghost predicate NoLeak(fs: Fs)
    requires Shape(fs)
  {
    forall b :: Marked(fs, b) ==> exists n, p :: Holds(fs, n, p, b)
  }

  ghost predicate Inv(fs: Fs) {
    Shape(fs) && InUse(fs) && Distinct(fs)
  }

  /** In other words: a number at one place of a tree is a data block whose bit is set, and is at no other place of any tree. */
  lemma InvLaw(fs: Fs, n: int, p: Path, n': int, p': Path)
    requires Inv(fs) && 0 <= n < |fs.inodes| && Valid(p) && 0 <= n' < |fs.inodes| && Valid(p') && At(fs, n, p) != 0
    ensures fs.first <= At(fs, n, p) < fs.nzones && fs.zmap[At(fs, n, p) - fs.first + 1]
    ensures n' != n || p' != p ==> At(fs, n', p') != At(fs, n, p)
  {
    assert Holds(fs, n, p, At(fs, n, p));
    assert At(fs, n', p') == At(fs, n, p) ==> Holds(fs, n', p', At(fs, n, p));
  }

  // ---------------------------------------------------------------- file blocks

  /** The path of block k of a file. */
  function PathOf(k: nat): (p: Path)
    requires k < MAX_BLOCKS
    ensures Valid(p)
  {
    if k < 7 then Zone(k)
    else if k < 7 + 512 then Leaf(k - 7)
    else DeepLeaf((k - 519) / 512, (k - 519) % 512)
  }

  lemma PathOfInjective(k: nat, l: nat)
    requires k < MAX_BLOCKS && l < MAX_BLOCKS && PathOf(k) == PathOf(l)
    ensures k == l
  {
  }

  /** bmap */
  function Bmap(fs: Fs, n: int, k: nat): int
    requires Shape(fs) && 0 <= n < |fs.inodes| && k < MAX_BLOCKS
  {
    At(fs, n, PathOf(k))
  }

  function FileByte(fs: Fs, n: int, pos: nat): Byte
    requires Shape(fs) && 0 <= n < |fs.inodes| && pos < MAX_BLOCKS * BLOCK_SIZE
  {
    var b := Bmap(fs, n, pos / BLOCK_SIZE);
    if 0 < b < fs.nzones then fs.disk[b][pos % BLOCK_SIZE] else 0
  }

  // ---------------------------------------------------------------- in bytes

  /** Number i of pointer block b, low byte first; 0 when there is no such block. */
  function Halfword(fs: Fs, b: int, i: nat): int
    requires Shape(fs) && i < 512
  {
    if 0 < b < fs.nzones then fs.disk[b][2 * i] as int + 256 * fs.disk[b][2 * i + 1] as int else 0
  }

  /** The number v of block k of file n, read off the inode and the bytes of the disk. */
  predicate BlockIs(fs: Fs, n: int, k: nat, v: int)
    requires Shape(fs) && 0 <= n < |fs.inodes| && k < 7 + 512 + 512 * 512
  {
    var z := fs.inodes[n].zone;
    v == if k < 7 then z[k]
         else if k < 519 then Halfword(fs, z[7], k - 7)
         else Halfword(fs, Halfword(fs, z[8], (k - 519) / 512), (k - 519) % 512)
  }

  lemma BmapInBytes(fs: Fs, n: int, k: nat)
    requires Inv(fs) && 0 <= n < |fs.inodes| && fs.inodes[n].regularOrDir && k < MAX_BLOCKS
    ensures BlockIs(fs, n, k, Bmap(fs, n, k))
  {
    PathInBytes(fs, n, PathOf(k));
    if k >= 519 {
      PathInBytes(fs, n, Middle((k - 519) / 512));
    }
  }

  /** Every place of a tree, in bytes. */
  lemma PathInBytes(fs: Fs, n: int, p: Path)
    requires Inv(fs) && 0 <= n < |fs.inodes| && fs.inodes[n].regularOrDir && Valid(p)
    ensures p.Zone? ==> At(fs, n, p) == fs.inodes[n].zone[p.i]
    ensures p.Leaf? ==> At(fs, n, p) == Halfword(fs, fs.inodes[n].zone[7], p.i)
    ensures p.Middle? ==> At(fs, n, p) == Halfword(fs, fs.inodes[n].zone[8], p.i)
    ensures p.DeepLeaf? ==> At(fs, n, p) == Halfword(fs, Halfword(fs, fs.inodes[n].zone[8], p.i), p.j)
  {
    NumberInZone(fs, n, Zone(7));
    NumberInZone(fs, n, Zone(8));
    if p.DeepLeaf? {
      NumberInZone(fs, n, Middle(p.i));
    }
  }

  /** An entry of a pointer block, in bytes. */
  lemma EntryInBytes(fs: Fs, n: int, root: Path, i: int)
    requires Inv(fs) && 0 <= n < |fs.inodes| && fs.inodes[n].regularOrDir && Valid(root) && Root(root) && 0 <= i < 512
    ensures Valid(Child(root, i)) && At(fs, n, Child(root, i)) == Halfword(fs, At(fs, n, root), i)
  {
    PathInBytes(fs, n, root);
    PathInBytes(fs, n, Child(root, i));
  }

  lemma NumberInZone(fs: Fs, n: int, p: Path)
    requires Inv(fs) && 0 <= n < |fs.inodes| && Valid(p)
    ensures At(fs, n, p) == 0 || 0 < At(fs, n, p) < fs.nzones
  {
    assert At(fs, n, p) != 0 ==> Holds(fs, n, p, At(fs, n, p));
  }

  /** Byte pos of a file: byte pos % 1024 of its block pos / 1024, or zero where it has none. */
  lemma FileInBytes(fs: Fs, n: int, pos: nat)
    requires Inv(fs) && 0 <= n < |fs.inodes| && fs.inodes[n].regularOrDir && pos < (7 + 512 + 512 * 512) * 1024
    ensures exists b :: BlockIs(fs, n, pos / 1024, b) && (b == 0 || 0 < b < fs.nzones) && FileByte(fs, n, pos) == (if b == 0 then 0 else fs.disk[b][pos % 1024])
  {
    BmapInBytes(fs, n, pos / 1024);
    NumberInZone(fs, n, PathOf(pos / 1024));
  }

  // ---------------------------------------------------------------- allocation

  /** new_block's effect on bit i (block b): the bit is set and the block cleared. */
  function Take(fs: Fs, b: int): Fs
    requires Shape(fs) && InZone(fs, b)
  {
    fs.(zmap := fs.zmap[b - fs.first + 1 := true], disk := fs.disk[b := ZeroBlock()])
  }

  lemma TakeCorrect(fs: Fs, b: int)
    requires Inv(fs) && InZone(fs, b) && !Marked(fs, b)
    ensures Inv(Take(fs, b)) && forall n, p :: !Holds(Take(fs, b), n, p, b)
    ensures forall n, p :: 0 <= n < |fs.inodes| && Valid(p) ==> At(Take(fs, b), n, p) == At(fs, n, p)
    ensures forall b' :: Marked(Take(fs, b), b') <==> Marked(fs, b') || b' == b
    ensures forall n, pos :: 0 <= n < |fs.inodes| && 0 <= pos < MAX_BLOCKS * BLOCK_SIZE ==> FileByte(Take(fs, b), n, pos) == FileByte(fs, n, pos)
  {
    var fs' := Take(fs, b);
    forall n, p | 0 <= n < |fs.inodes| && Valid(p)
      ensures At(fs', n, p) == At(fs, n, p)
    {
      NotHeld(fs, n, Zone(7), b);
      NotHeld(fs, n, Zone(8), b);
      if p.DeepLeaf? {
        NotHeld(fs, n, Middle(p.i), b);
      }
    }
    assert forall n, p, b' :: Holds(fs', n, p, b') <==> Holds(fs, n, p, b');
    forall n, pos | 0 <= n < |fs.inodes| && 0 <= pos < MAX_BLOCKS * BLOCK_SIZE
      ensures FileByte(fs', n, pos) == FileByte(fs, n, pos)
    {
      NotHeld(fs, n, PathOf(pos / BLOCK_SIZE), b);
    }
  }

  lemma NotHeld(fs: Fs, n: int, p: Path, b: int)
    requires Inv(fs) && InZone(fs, b) && !Marked(fs, b) && 0 <= n < |fs.inodes| && Valid(p)
    ensures At(fs, n, p) != b
  {
    assert Holds(fs, n, p, At(fs, n, p)) || At(fs, n, p) == 0;
  }

  /** Write number v into entry i of pointer block r. */
  function StoreEntry(fs: Fs, r: int, i: int, v: int): Fs
    requires Shape(fs) && 0 < r < fs.nzones && 0 <= i < PER_BLOCK && 0 <= v < 0x1_0000
  {
    fs.(disk := fs.disk[r := SetWord(fs.disk[r], i, v)])
  }

  function StoreZone(fs: Fs, n: int, i: int, v: int): Fs
    requires Shape(fs) && 0 <= n < |fs.inodes| && 0 <= i < 9
  {
    fs.(inodes := fs.inodes[n := fs.inodes[n].(zone := fs.inodes[n].zone[i := v])])
  }

  /** b is taken, empty and not yet part of any tree. */
  ghost predicate Fresh(fs: Fs, b: int)
    requires Shape(fs)
  {
    Marked(fs, b) && fs.disk[b] == ZeroBlock() && forall n, p :: !Holds(fs, n, p, b)
  }

  /** fs' is fs with block b hung at path p of inode n; no file changes its contents. */
  ghost predicate Hung(fs: Fs, fs': Fs, n: int, p: Path, b: int)
    requires Shape(fs) && Shape(fs')
  {
    && 0 <= n < |fs.inodes| && Valid(p)
    && fs'.zmap == fs.zmap && fs'.first == fs.first && fs'.nzones == fs.nzones && SameSpecials(fs, fs')
    && (forall n' :: 0 <= n' < |fs.inodes| ==> fs'.inodes[n'].size == fs.inodes[n'].size && fs'.inodes[n'].regularOrDir == fs.inodes[n'].regularOrDir)
    && (forall n', p' :: 0 <= n' < |fs.inodes| && Valid(p') ==> At(fs', n', p') == if n' == n && p' == p then b else At(fs, n', p'))
    && (forall n', pos :: 0 <= n' < |fs.inodes| && 0 <= pos < MAX_BLOCKS * BLOCK_SIZE ==> FileByte(fs', n', pos) == FileByte(fs, n', pos))
  }

  lemma HungInv(fs: Fs, fs': Fs, n: int, p: Path, b: int)
    requires Inv(fs) && Shape(fs') && Hung(fs, fs', n, p, b) && Fresh(fs, b) && At(fs, n, p) == 0
    ensures Inv(fs') && Holds(fs', n, p, b)
    ensures forall b' :: Marked(fs', b') <==> Marked(fs, b')
    ensures (forall b' :: Marked(fs, b') && b' != b ==> exists n', p' :: Holds(fs, n', p', b')) ==> NoLeak(fs')
  {
    forall n', p', b' | Holds(fs', n', p', b')
      ensures if n' == n && p' == p then b' == b else Holds(fs, n', p', b')
    {
    }
    if forall b' :: Marked(fs, b') && b' != b ==> exists n', p' :: Holds(fs, n', p', b') {
      forall b' | Marked(fs', b')
        ensures exists n', p' :: Holds(fs', n', p', b')
      {
        if b' == b {
          assert Holds(fs', n, p, b);
        } else {
          assert Marked(fs, b');
          var n', p' :| Holds(fs, n', p', b');
          assert Holds(fs', n', p', b');
        }
      }
    }
  }

  lemma ZeroEntries(fs: Fs, b: int, i: int)
    requires Shape(fs) && InZone(fs, b) && fs.disk[b] == ZeroBlock() && 0 <= i < PER_BLOCK
    ensures Entry(fs, b, i) == 0
  {
  }

  lemma StoreZoneAt(fs: Fs, n: int, i: int, b: int)
    requires Inv(fs) && 0 <= n < |fs.inodes| && fs.inodes[n].regularOrDir && 0 <= i < 9 && At(fs, n, Zone(i)) == 0 && Fresh(fs, b)
    ensures Shape(StoreZone(fs, n, i, b)) && Hung(fs, StoreZone(fs, n, i, b), n, Zone(i), b)
  {
    var fs' := StoreZone(fs, n, i, b);
    forall n', p' | 0 <= n' < |fs.inodes| && Valid(p')
      ensures At(fs', n', p') == if n' == n && p' == Zone(i) then b else At(fs, n', p')
    {
      if n' == n && (p'.Leaf? || p'.Middle? || p'.DeepLeaf?) {
        ZeroEntries(fs, b, p'.i);
      }
    }
    SameBytes(fs, fs', n, Zone(i), b);
  }

  /** Where the map changes only at p, and only from a hole to an empty block, and pointer blocks alone were written, files read the same. */
  lemma SameBytes(fs: Fs, fs': Fs, n: int, p: Path, b: int)
    requires Shape(fs) && Shape(fs') && fs'.nzones == fs.nzones && |fs'.inodes| == |fs.inodes| && 0 <= n < |fs.inodes| && Valid(p)
    requires InZone(fs, b) && fs'.disk[b] == ZeroBlock() && At(fs, n, p) == 0
    requires forall n', p' :: 0 <= n' < |fs.inodes| && Valid(p') ==> At(fs', n', p') == if n' == n && p' == p then b else At(fs, n', p')
    requires forall n', p' :: 0 <= n' < |fs.inodes| && Valid(p') && !Root(p') && 0 < At(fs, n', p') < fs.nzones ==>
               fs'.disk[At(fs, n', p')] == fs.disk[At(fs, n', p')]
    ensures forall n', pos :: 0 <= n' < |fs.inodes| && 0 <= pos < MAX_BLOCKS * BLOCK_SIZE ==> FileByte(fs', n', pos) == FileByte(fs, n', pos)
  {
    forall n', pos | 0 <= n' < |fs.inodes| && 0 <= pos < MAX_BLOCKS * BLOCK_SIZE
      ensures FileByte(fs', n', pos) == FileByte(fs, n', pos)
    {
      var q := PathOf(pos / BLOCK_SIZE);
      assert !Root(q);
    }
  }

  lemma StoreEntryAt(fs: Fs, n: int, root: Path, i: int, b: int)
    requires Inv(fs) && 0 <= n < |fs.inodes| && Root(root) && Valid(root) && 0 <= i < PER_BLOCK
    requires At(fs, n, root) != 0 && At(fs, n, Child(root, i)) == 0 && Fresh(fs, b)
    ensures 0 < At(fs, n, root) < fs.nzones
    ensures Shape(StoreEntry(fs, At(fs, n, root), i, b)) && Hung(fs, StoreEntry(fs, At(fs, n, root), i, b), n, Child(root, i), b)
  {
    var r := At(fs, n, root);
    assert Holds(fs, n, root, r);
    var fs' := StoreEntry(fs, r, i, b);
    SetWordAt(fs.disk[r], i, b, i);
    assert Shape(fs');
    forall q: int, j | 0 <= j < PER_BLOCK
      ensures Entry(fs', q, j) == if q == r && j == i then b else Entry(fs, q, j)
    {
      if q == r {
        SetWordAt(fs.disk[r], i, b, j);
      }
    }
    forall n', p' | 0 <= n' < |fs.inodes| && Valid(p')
      ensures At(fs', n', p') == if n' == n && p' == Child(root, i) then b else At(fs, n', p')
    {
      StoreEntryPath(fs, n, root, i, b, n', p');
    }
    forall n', p' | 0 <= n' < |fs.inodes| && Valid(p') && !Root(p') && 0 < At(fs, n', p') < fs.nzones
      ensures fs'.disk[At(fs, n', p')] == fs.disk[At(fs, n', p')]
    {
      assert Holds(fs, n', p', At(fs, n', p'));
    }
    SameBytes(fs, fs', n, Child(root, i), b);
  }

  lemma StoreEntryPath(fs: Fs, n: int, root: Path, i: int, b: int, n': int, p': Path)
    requires Inv(fs) && 0 <= n < |fs.inodes| && Root(root) && Valid(root) && 0 <= i < PER_BLOCK
    requires At(fs, n, root) != 0 && At(fs, n, Child(root, i)) == 0 && Fresh(fs, b)
    requires 0 < At(fs, n, root) < fs.nzones && Shape(StoreEntry(fs, At(fs, n, root), i, b))
    requires forall q: int, j :: 0 <= j < PER_BLOCK ==>
               Entry(StoreEntry(fs, At(fs, n, root), i, b), q, j) == if q == At(fs, n, root) && j == i then b else Entry(fs, q, j)
    requires 0 <= n' < |fs.inodes| && Valid(p')
    ensures At(StoreEntry(fs, At(fs, n, root), i, b), n', p') == if n' == n && p' == Child(root, i) then b else At(fs, n', p')
  {
    var r := At(fs, n, root);
    var fs' := StoreEntry(fs, r, i, b);
    assert Holds(fs, n, root, r);
    if !p'.Zone? {
      var top := if p'.Leaf? then Zone(7) else Zone(8);
      assert At(fs, n', top) == r ==> Holds(fs, n', top, r);
      if p'.DeepLeaf? {
        ZeroEntries(fs, b, p'.j);
        assert At(fs, n', Middle(p'.i)) == r ==> Holds(fs, n', Middle(p'.i), r);
      }
    }
  }

  // ---------------------------------------------------------------- growth

  /** Only path p of inode n may have changed, from nothing to a new block; nothing is lost and no byte of any file changed. */
  ghost predicate Grown(fs: Fs, fs': Fs, n: int, route: set<Path>)
    requires Shape(fs) && Shape(fs')
  {
    && fs'.first == fs.first && fs'.nzones == fs.nzones && SameSpecials(fs, fs')
    && (forall n' :: 0 <= n' < |fs.inodes| ==> fs'.inodes[n'].size == fs.inodes[n'].size && fs'.inodes[n'].regularOrDir == fs.inodes[n'].regularOrDir)
    && (forall n', p' :: 0 <= n' < |fs.inodes| && Valid(p') ==>
          At(fs', n', p') == At(fs, n', p') || (At(fs, n', p') == 0 && n' == n && p' in route))
    && (forall n', pos :: 0 <= n' < |fs.inodes| && 0 <= pos < MAX_BLOCKS * BLOCK_SIZE ==> FileByte(fs', n', pos) == FileByte(fs, n', pos))
    && (forall b :: Marked(fs, b) ==> Marked(fs', b))
    && (NoLeak(fs) ==> NoLeak(fs'))
  }

  lemma GrownTrans(a: Fs, b: Fs, c: Fs, n: int, r: set<Path>, r': set<Path>)
    requires Shape(a) && Shape(b) && Shape(c) && Grown(a, b, n, r) && Grown(b, c, n, r')
    ensures Grown(a, c, n, r + r')
  {
    forall n', pos | 0 <= n' < |a.inodes| && 0 <= pos < MAX_BLOCKS * BLOCK_SIZE
      ensures FileByte(c, n', pos) == FileByte(a, n', pos)
    {
      assert FileByte(b, n', pos) == FileByte(a, n', pos);
    }
    forall n', p' | 0 <= n' < |a.inodes| && Valid(p')
      ensures At(c, n', p') == At(a, n', p') || (At(a, n', p') == 0 && n' == n && p' in r + r')
    {
      assert At(b, n', p') == At(a, n', p') || (At(a, n', p') == 0 && n' == n && p' in r);
    }
  }

  lemma TakeAndHang(fs: Fs, fs': Fs, n: int, p: Path, b: int)
    requires Inv(fs) && InZone(fs, b) && !Marked(fs, b) && 0 <= n < |fs.inodes| && Valid(p) && At(fs, n, p) == 0
    requires Shape(fs') && Hung(Take(fs, b), fs', n, p, b)
    ensures Inv(fs') && Grown(fs, fs', n, {p}) && At(fs', n, p) == b
  {
    TakeCorrect(fs, b);
    var fs1 := Take(fs, b);
    HungInv(fs1, fs', n, p, b);
    if NoLeak(fs) {
      forall b' | Marked(fs1, b') && b' != b
        ensures exists n', p' :: Holds(fs1, n', p', b')
      {
        assert Marked(fs, b');
        var n', p' :| Holds(fs, n', p', b');
        assert Holds(fs1, n', p', b');
      }
    }
    forall n', pos | 0 <= n' < |fs.inodes| && 0 <= pos < MAX_BLOCKS * BLOCK_SIZE
      ensures FileByte(fs', n', pos) == FileByte(fs, n', pos)
    {
      assert FileByte(fs1, n', pos) == FileByte(fs, n', pos);
    }
  }

  /** A spare bit past the last block: set by a failing new_block, it stands for nothing. */
  function SetSpare(fs: Fs, i: int): Fs
    requires Shape(fs) && fs.nzones - fs.first < i < |fs.zmap|
  {
    fs.(zmap := fs.zmap[i := true])
  }

  lemma SpareIsNothing(fs: Fs, i: int, n: int)
    requires Inv(fs) && fs.nzones - fs.first < i < |fs.zmap|
    ensures Inv(SetSpare(fs, i)) && Grown(fs, SetSpare(fs, i), n, {})
    ensures forall b :: Marked(SetSpare(fs, i), b) <==> Marked(fs, b)
  {
    var fs' := SetSpare(fs, i);
    assert forall n', p', b :: Holds(fs', n', p', b) <==> Holds(fs, n', p', b);
    if NoLeak(fs) {
      forall b | Marked(fs', b)
        ensures exists n', p' :: Holds(fs', n', p', b)
      {
        assert Marked(fs, b);
        var n', p' :| Holds(fs, n', p', b);
        assert Holds(fs', n', p', b);
      }
    }
  }
}
