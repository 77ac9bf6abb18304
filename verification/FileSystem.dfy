/** fs/bitmap.c, fs/inode.c, fs/truncate.c and fs/file_dev.c on one device, one task at a time,
    with every block readable.
 */
module FileSystems {
  import opened BlockTree

  ghost predicate Full(fs: Fs)
    requires Shape(fs)
  {
    forall b :: InZone(fs, b) ==> Marked(fs, b)
  }

  predicate Unwritten(node: Inode) {
    |node.zone| == 9 && (node.regularOrDir ==> node.size == 0 && forall i :: 0 <= i < 9 ==> node.zone[i] == 0)
  }

  class FileSystem {
    const first: nat
    const nzones: nat
    const zmap: array<bool>
    const disk: array<Block>
    const inodes: array<Inode>

    ghost function State(): Fs
      reads zmap, disk, inodes
    {
      Fs(first, nzones, zmap[..], disk[..], inodes[..])
    }

    ghost predicate Ok()
      reads zmap, disk, inodes
    {
      && zmap as object != disk as object && zmap as object != inodes as object && disk as object != inodes as object
      && Inv(State())
    }

    /** A device with nothing allocated: its regular files and directories are empty, and the other inodes hold what they like. */
    constructor (firstZone: nat, zones: nat, bits: nat, nodes: seq<Inode>)
      requires 1 <= firstZone <= zones < 0x1_0000 && zones - firstZone < bits
      requires forall n :: 0 <= n < |nodes| ==> Unwritten(nodes[n])
      ensures Ok() && fresh(zmap) && fresh(disk) && fresh(inodes)
      ensures State().inodes == nodes && State().first == firstZone && State().nzones == zones
      ensures NoLeak(State()) && forall b :: !Marked(State(), b)
    {
      first, nzones := firstZone, zones;
      zmap := new bool[bits](i => i == 0);
      disk := new Block[zones](_ => ZeroBlock());
      inodes := new Inode[|nodes|](i requires 0 <= i < |nodes| => nodes[i]);
      new;
      assert inodes[..] == nodes;
      assert forall n, p, b :: !Holds(State(), n, p, b);
    }

    /** new_block; 0 when the device is full. */
    method NewBlock() returns (b: int)
      requires Ok()
      modifies zmap, disk
      ensures Ok()
      ensures b == 0 <==> Full(old(State()))
      ensures b == 0 ==> State() == old(State()) || exists i :: nzones - first < i < |old(State()).zmap| && State() == SetSpare(old(State()), i)
      ensures b != 0 ==> InZone(old(State()), b) && !Marked(old(State()), b) && State() == Take(old(State()), b)
      ensures b != 0 ==> first <= b < nzones && !old(zmap[b - first + 1]) && zmap[..] == old(zmap[..])[b - first + 1 := true]
      ensures b != 0 ==> forall i :: 0 <= i < b - first + 1 ==> old(zmap[i])
      ensures b != 0 ==> |disk[b]| == 1024 && (forall i :: 0 <= i < 1024 ==> disk[b][i] == 0) && forall c :: 0 <= c < disk.Length && c != b ==> disk[c] == old(disk[c])
    {
      ghost var fs := State();
      var j := 0;
      while j < zmap.Length && zmap[j]
        invariant 0 <= j <= zmap.Length
        invariant forall i :: 0 <= i < j ==> zmap[i]
      {
        j := j + 1;
      }
      if j == zmap.Length {
        return 0;
      }
      zmap[j] := true;
      if j + first - 1 >= nzones {
        SpareIsNothing(fs, j, 0);
        assert State() == SetSpare(fs, j);
        return 0;
      }
      b := j + first - 1;
      assert !Marked(fs, b);
      TakeCorrect(fs, b);
      disk[b] := ZeroBlock();
      assert State() == Take(fs, b);
    }

    /** Zone i of inode n, allocated if wanted and missing. */
    method GetZone(n: int, i: int, create: bool) returns (b: int)
      requires Ok() && 0 <= n < inodes.Length && inodes[n].regularOrDir && 0 <= i < 9
      modifies zmap, disk, inodes
      ensures Ok() && Grown(old(State()), State(), n, {Zone(i)})
      ensures b == At(State(), n, Zone(i))
      ensures !create ==> State() == old(State())
      ensures create && b == 0 ==> Full(State())
    {
      ghost var fs := State();
      if create && inodes[n].zone[i] == 0 {
        b := NewBlock();
        if b != 0 {
          ghost var fs1 := State();
          TakeCorrect(fs, b);
          StoreZoneAt(fs1, n, i, b);
          inodes[n] := inodes[n].(zone := inodes[n].zone[i := b]);
          assert State() == StoreZone(fs1, n, i, b);
          TakeAndHang(fs, State(), n, Zone(i), b);
        } else {
          FailedAllocation(fs, State(), n, {Zone(i)});
        }
      }
      b := inodes[n].zone[i];
    }

    /** Entry i of the pointer block r at path root of inode n, allocated if wanted and missing. */
    method GetEntry(n: int, ghost root: Path, r: int, i: int, create: bool) returns (b: int)
      requires Ok() && 0 <= n < inodes.Length && Valid(root) && Root(root) && 0 <= i < PER_BLOCK
      requires r == At(State(), n, root) && r != 0
      modifies zmap, disk, inodes
      ensures Ok() && Grown(old(State()), State(), n, {Child(root, i)})
      ensures Valid(Child(root, i)) && b == At(State(), n, Child(root, i)) == Halfword(State(), r, i)
      ensures !create ==> State() == old(State())
      ensures create && b == 0 ==> Full(State())
    {
      b := LookUp(n, root, r, i, create);
      assert At(State(), n, root) == r;
      EntryInBytes(State(), n, root, i);
    }

    /** Reads the entry, or hangs a new block there. */
    method LookUp(n: int, ghost root: Path, r: int, i: int, create: bool) returns (b: int)
      requires Ok() && 0 <= n < inodes.Length && Valid(root) && Root(root) && 0 <= i < PER_BLOCK
      requires r == At(State(), n, root) && r != 0
      modifies zmap, disk, inodes
      ensures Ok() && Grown(old(State()), State(), n, {Child(root, i)})
      ensures Valid(Child(root, i)) && b == At(State(), n, Child(root, i))
      ensures !create ==> State() == old(State())
      ensures create && b == 0 ==> Full(State())
    {
      ghost var fs := State();
      assert Holds(fs, n, root, r);
      ChildAt(fs, n, root, i);
      b := WordAt(disk[r], i);
      if create && b == 0 {
        b := NewBlock();
        if b != 0 {
          ghost var fs1 := State();
          TakeCorrect(fs, b);
          StoreEntryAt(fs1, n, root, i, b);
          disk[r] := SetWord(disk[r], i, b);
          assert State() == StoreEntry(fs1, r, i, b);
          TakeAndHang(fs, State(), n, Child(root, i), b);
        } else {
          FailedAllocation(fs, State(), n, {Child(root, i)});
        }
      }
    }

    /** _bmap: bmap when create is false, create_block when it is true.  The source panics outside 0 .. MAX_BLOCKS-1. */
    method BlockMap(n: int, block: nat, create: bool) returns (b: int)
      requires Ok() && 0 <= n < inodes.Length && inodes[n].regularOrDir && block < MAX_BLOCKS
      modifies zmap, disk, inodes
      ensures Ok() && Grown(old(State()), State(), n, Route(block))
      ensures b == Bmap(State(), n, block) && BlockIs(State(), n, block, b)
      ensures !create ==> State() == old(State())
      ensures create && b == 0 ==> Full(State())
    {
      b := MapBlock(n, block, create);
      BmapInBytes(State(), n, block);
    }

    /** The three levels. */
    method MapBlock(n: int, block: nat, create: bool) returns (b: int)
      requires Ok() && 0 <= n < inodes.Length && inodes[n].regularOrDir && block < MAX_BLOCKS
      modifies zmap, disk, inodes
      ensures Ok() && Grown(old(State()), State(), n, Route(block))
      ensures b == Bmap(State(), n, block)
      ensures !create ==> State() == old(State())
      ensures create && b == 0 ==> Full(State())
    {
      ghost var fs := State();
      if block < 7 {
        b := GetZone(n, block, create);
        return;
      }
      if block < 7 + 512 {
        var r := GetZone(n, 7, create);
        if r == 0 {
          GrownMore(fs, State(), n, {Zone(7)}, Route(block));
          return 0;
        }
        ghost var fs1 := State();
        b := GetEntry(n, Zone(7), r, block - 7, create);
        GrownTrans(fs, fs1, State(), n, {Zone(7)}, {Leaf(block - 7)});
        GrownMore(fs, State(), n, {Zone(7)} + {Leaf(block - 7)}, Route(block));
        return;
      }
      b := DoubleIndirect(n, block - 519, create);
    }

    /** The double-indirect part of _bmap. */
    method DoubleIndirect(n: int, block: nat, create: bool) returns (b: int)
      requires Ok() && 0 <= n < inodes.Length && inodes[n].regularOrDir && block < 512 * 512
      modifies zmap, disk, inodes
      ensures Ok() && Grown(old(State()), State(), n, Route(block + 519))
      ensures b == Bmap(State(), n, block + 519)
      ensures !create ==> State() == old(State())
      ensures create && b == 0 ==> Full(State())
    {
      ghost var fs := State();
      var hi, lo := block / 512, block % 512;
      var r := GetZone(n, 8, create);
      if r == 0 {
        GrownMore(fs, State(), n, {Zone(8)}, Route(block + 519));
        return 0;
      }
      ghost var fs1 := State();
      var m := GetEntry(n, Zone(8), r, hi, create);
      ghost var fs2 := State();
      GrownTrans(fs, fs1, fs2, n, {Zone(8)}, {Middle(hi)});
      if m == 0 {
        GrownMore(fs, State(), n, {Zone(8)} + {Middle(hi)}, Route(block + 519));
        return 0;
      }
      b := GetEntry(n, Middle(hi), m, lo, create);
      GrownTrans(fs, fs2, State(), n, {Zone(8)} + {Middle(hi)}, {DeepLeaf(hi, lo)});
      GrownMore(fs, State(), n, {Zone(8)} + {Middle(hi)} + {DeepLeaf(hi, lo)}, Route(block + 519));
    }

    // -------------------------------------------------------------- truncate

    /** free_block.  Its panics, a block outside the data zone and a bit already clear, are preconditions. */
    method FreeBlock(b: int)
      requires first <= b < nzones && 0 <= b - first + 1 < zmap.Length && zmap[b - first + 1]
      modifies zmap
      ensures zmap[..] == old(zmap[..])[b - first + 1 := false]
    {
      zmap[b - first + 1] := false;
    }

    /** The bitmap is that of fs less the blocks at the paths in freed of inode n. */
    ghost predicate Freeing(fs: Fs, n: int, freed: set<Path>)
      reads zmap, disk
    {
      && Inv(fs) && 0 <= n < |fs.inodes| && first == fs.first && nzones == fs.nzones
      && zmap as object != disk as object && disk[..] == fs.disk && zmap.Length == |fs.zmap|
      && (forall i :: 0 <= i < zmap.Length ==> zmap[i] == (fs.zmap[i] && !Gone(fs, n, freed, i + first - 1)))
    }

    /** free_block on the block at path p, which has not been freed yet. */
    method FreePath(ghost fs: Fs, ghost n: int, ghost freed: set<Path>, ghost p: Path, b: int)
      requires Freeing(fs, n, freed) && Valid(p) && b == At(fs, n, p) && b != 0 && p !in freed
      modifies zmap
      ensures Freeing(fs, n, freed + {p})
    {
      assert Holds(fs, n, p, b);
      assert !Gone(fs, n, freed, b);
      FreeBlock(b);
      forall c
        ensures Gone(fs, n, freed + {p}, c) <==> Gone(fs, n, freed, c) || c == b
      {
        if Gone(fs, n, freed, c) {
          var q :| q in freed && Holds(fs, n, q, c);
          assert q in freed + {p};
        }
        assert p in freed + {p};
      }
    }

    /** free_ind on the pointer block at path root. */
    method FreeInd(ghost fs: Fs, ghost n: int, ghost freed: set<Path>, ghost root: Path, block: int)
      requires Freeing(fs, n, freed) && Valid(root) && Root(root) && root != Zone(8) && block == At(fs, n, root)
      requires root !in freed && Children(root, PER_BLOCK) !! freed
      modifies zmap
      ensures Freeing(fs, n, freed + Children(root, PER_BLOCK) + {root})
    {
      if block == 0 {
        forall p | p in Children(root, PER_BLOCK) + {root}
          ensures Valid(p) && At(fs, n, p) == 0
        {
        }
        NothingThere(fs, n, freed, freed + Children(root, PER_BLOCK) + {root});
        return;
      }
      assert Holds(fs, n, root, block);
      assert freed + Children(root, 0) == freed;
      for j := 0 to PER_BLOCK
        invariant Freeing(fs, n, freed + Children(root, j))
      {
        ChildAt(fs, n, root, j);
        var b := WordAt(disk[block], j);
        ghost var done := freed + Children(root, j);
        assert freed + Children(root, j + 1) == done + {Child(root, j)};
        if b != 0 {
          assert Child(root, j) in Children(root, PER_BLOCK);
          FreePath(fs, n, done, Child(root, j), b);
        } else {
          NothingThere(fs, n, done, done + {Child(root, j)});
        }
      }
      FreePath(fs, n, freed + Children(root, PER_BLOCK), root, block);
    }

    /** One turn of free_dind's loop. */
    method FreeMiddle(ghost fs: Fs, ghost n: int, ghost freed: set<Path>, block: int, i: nat)
      requires Freeing(fs, n, freed + Deep(i)) && i < PER_BLOCK && Holds(fs, n, Zone(8), block) && Deep(PER_BLOCK) !! freed
      modifies zmap
      ensures Freeing(fs, n, freed + Deep(i + 1))
    {
      DeepStep(i);
      var b := WordAt(disk[block], i);
      ChildAt(fs, n, Zone(8), i);
      assert b == At(fs, n, Middle(i));
      ghost var done := freed + Deep(i);
      ghost var more := done + Children(Middle(i), PER_BLOCK) + {Middle(i)};
      assert freed + Deep(i + 1) == more;
      if b != 0 {
        FreeInd(fs, n, done, Middle(i), b);
      } else {
        forall p | p in Children(Middle(i), PER_BLOCK)
          ensures Valid(p) && At(fs, n, p) == 0
        {
          ChildAt(fs, n, Middle(i), p.j);
        }
        NothingThere(fs, n, done, more);
      }
    }

    /** free_dind on zone 8. */
    method FreeDind(ghost fs: Fs, ghost n: int, ghost freed: set<Path>, block: int)
      requires Freeing(fs, n, freed) && block == At(fs, n, Zone(8)) && Zone(8) !in freed && Deep(PER_BLOCK) !! freed
      modifies zmap
      ensures Freeing(fs, n, freed + Deep(PER_BLOCK) + {Zone(8)})
    {
      if block == 0 {
        forall p | p in Deep(PER_BLOCK) + {Zone(8)}
          ensures Valid(p) && At(fs, n, p) == 0
        {
        }
        NothingThere(fs, n, freed, freed + Deep(PER_BLOCK) + {Zone(8)});
        return;
      }
      assert Holds(fs, n, Zone(8), block);
      assert freed + Deep(0) == freed;
      for i := 0 to PER_BLOCK
        invariant Freeing(fs, n, freed + Deep(i))
      {
        FreeMiddle(fs, n, freed, block, i);
      }
      FreePath(fs, n, freed + Deep(PER_BLOCK), Zone(8), block);
    }

    /** The first seven zones. */
    method FreeDirect(n: int)
      requires Ok() && 0 <= n < inodes.Length && inodes[n].regularOrDir
      modifies zmap, inodes
      ensures Freeing(old(State()), n, Zones(7)) && |inodes[n].zone| == 9
      ensures inodes[n].size == old(inodes[n].size) && inodes[n].regularOrDir == old(inodes[n].regularOrDir)
      ensures forall j :: 0 <= j < 9 ==> inodes[n].zone[j] == if j < 7 then 0 else old(inodes[n].zone)[j]
      ensures forall m :: 0 <= m < inodes.Length && m != n ==> inodes[m] == old(inodes[m])
    {
      ghost var fs := State();
      NothingThere(fs, n, {}, {});
      assert Zones(0) == {};
      for i := 0 to 7
        invariant Freeing(fs, n, Zones(i)) && disk[..] == fs.disk && inodes.Length == |fs.inodes|
        invariant |inodes[n].zone| == 9 && inodes[n].size == fs.inodes[n].size && inodes[n].regularOrDir == fs.inodes[n].regularOrDir
        invariant forall j :: 0 <= j < 9 ==> inodes[n].zone[j] == if j < i then 0 else fs.inodes[n].zone[j]
        invariant forall m :: 0 <= m < inodes.Length && m != n ==> inodes[m] == fs.inodes[m]
      {
        assert Zones(i + 1) == Zones(i) + {Zone(i)};
        if inodes[n].zone[i] != 0 {
          FreePath(fs, n, Zones(i), Zone(i), inodes[n].zone[i]);
          inodes[n] := inodes[n].(zone := inodes[n].zone[i := 0]);
        } else {
          NothingThere(fs, n, Zones(i), Zones(i + 1));
        }
      }
    }

    /** The other two. */
    method FreeIndirect(ghost fs: Fs, ghost n: int, ind: int, dind: int)
      requires Freeing(fs, n, Zones(7)) && ind == At(fs, n, Zone(7)) && dind == At(fs, n, Zone(8))
      modifies zmap
      ensures Freeing(fs, n, Everything())
    {
      FreeInd(fs, n, Zones(7), Zone(7), ind);
      FreeDind(fs, n, Zones(7) + Children(Zone(7), PER_BLOCK) + {Zone(7)}, dind);
    }

    /** truncate: exactly the blocks of inode n are given back, and nothing else is touched. */
    method Truncate(n: int)
      requires Ok() && 0 <= n < inodes.Length
      modifies zmap, inodes
      ensures Ok()
      ensures !old(State()).inodes[n].regularOrDir ==> State() == old(State())
      ensures old(State()).inodes[n].regularOrDir ==> Truncated(old(State()), State(), n)
    {
      if !inodes[n].regularOrDir {
        return;
      }
      ghost var fs := State();
      FreeDirect(n);
      FreeIndirect(fs, n, inodes[n].zone[7], inodes[n].zone[8]);
      inodes[n] := Inode(inodes[n].zone[7 := 0][8 := 0], 0, inodes[n].regularOrDir);
      EveryPath(Everything());
      TruncatedBitmap(fs, State(), n, Everything());
    }
  }

  ghost predicate Gone(fs: Fs, n: int, freed: set<Path>, b: int)
    requires Shape(fs)
  {
    exists p :: p in freed && Holds(fs, n, p, b)
  }

  /** Paths that hold no block count as freed for nothing. */
  lemma NothingThere(fs: Fs, n: int, freed: set<Path>, more: set<Path>)
    requires Shape(fs) && 0 <= n < |fs.inodes| && freed <= more
    requires forall p :: p in more - freed ==> Valid(p) && At(fs, n, p) == 0
    ensures forall b :: Gone(fs, n, more, b) <==> Gone(fs, n, freed, b)
  {
    forall b
      ensures Gone(fs, n, more, b) <==> Gone(fs, n, freed, b)
    {
      if Gone(fs, n, more, b) {
        var p :| p in more && Holds(fs, n, p, b);
        assert p in freed;
      }
      if Gone(fs, n, freed, b) {
        var p :| p in freed && Holds(fs, n, p, b);
        assert p in more;
      }
    }
  }

  ghost function Zones(k: nat): set<Path> {
    set i | 0 <= i < k :: Zone(i)
  }

  ghost function Children(root: Path, k: nat): set<Path>
    requires Root(root)
  {
    set j | 0 <= j < k :: Child(root, j)
  }

  /** Everything below zone 8, for its first k entries. */
  ghost function Deep(k: nat): set<Path> {
    (set i | 0 <= i < k :: Middle(i)) + (set i, j | 0 <= i < k && 0 <= j < PER_BLOCK :: DeepLeaf(i, j))
  }

  lemma DeepStep(k: nat)
    ensures Deep(k + 1) == Deep(k) + Children(Middle(k), PER_BLOCK) + {Middle(k)}
  {
    var next := Deep(k) + Children(Middle(k), PER_BLOCK) + {Middle(k)};
    forall p
      ensures p in Deep(k + 1) <==> p in next
    {
      if p.DeepLeaf? && p.i == k && 0 <= p.j < PER_BLOCK {
        assert p == Child(Middle(k), p.j);
      }
    }
  }

  /** In the order in which truncate comes to them. */
  ghost function Everything(): set<Path> {
    Zones(7) + Children(Zone(7), PER_BLOCK) + {Zone(7)} + Deep(PER_BLOCK) + {Zone(8)}
  }

  lemma EveryPath(freed: set<Path>)
    requires freed == Everything()
    ensures forall p :: Valid(p) ==> p in freed
  {
    forall p | Valid(p)
      ensures p in freed
    {
      if p.Leaf? {
        assert p == Child(Zone(7), p.i);
      } else if p.Zone? && p.i < 7 {
        assert p in Zones(7);
      }
    }
  }

  /** Block b is somewhere in the tree of inode n. */
  ghost predicate Owns(fs: Fs, n: int, b: int)
    requires Shape(fs)
  {
    exists p :: Holds(fs, n, p, b)
  }

  /** Inode n is empty, its blocks and no others are unmarked, all other files are as they were. */
  ghost predicate Truncated(fs: Fs, fs': Fs, n: int)
    requires Shape(fs) && Shape(fs')
  {
    && fs'.first == fs.first && fs'.nzones == fs.nzones && |fs'.inodes| == |fs.inodes| && 0 <= n < |fs.inodes|
    && (forall b :: Marked(fs', b) <==> Marked(fs, b) && !(exists p :: Holds(fs, n, p, b)))
    && (forall p :: Valid(p) ==> At(fs', n, p) == 0) && fs'.inodes[n].size == 0
    && fs'.inodes[n].regularOrDir == fs.inodes[n].regularOrDir
    && (forall m, p :: 0 <= m < |fs.inodes| && m != n && Valid(p) ==> At(fs', m, p) == At(fs, m, p))
    && (forall m :: 0 <= m < |fs.inodes| && m != n ==> fs'.inodes[m] == fs.inodes[m])
    && (forall m, pos :: 0 <= m < |fs.inodes| && m != n && 0 <= pos < MAX_BLOCKS * BLOCK_SIZE ==> FileByte(fs', m, pos) == FileByte(fs, m, pos))
    && (NoLeak(fs) ==> NoLeak(fs'))
  }

  /** fs' is fs with inode n emptied and the blocks at the paths in freed unmarked. */
  ghost predicate Emptied(fs: Fs, fs': Fs, n: int, freed: set<Path>)
    requires Shape(fs)
  {
    && 0 <= n < |fs.inodes| && (forall p :: Valid(p) ==> p in freed)
    && fs'.first == fs.first && fs'.nzones == fs.nzones && fs'.disk == fs.disk && |fs'.zmap| == |fs.zmap| && |fs'.inodes| == |fs.inodes|
    && (forall i :: 0 <= i < |fs.zmap| ==> fs'.zmap[i] == (fs.zmap[i] && !Gone(fs, n, freed, i + fs.first - 1)))
    && fs'.inodes[n].regularOrDir == fs.inodes[n].regularOrDir
    && fs'.inodes[n].size == 0 && |fs'.inodes[n].zone| == 9 && (forall j :: 0 <= j < 9 ==> fs'.inodes[n].zone[j] == 0)
    && (forall m :: 0 <= m < |fs.inodes| && m != n ==> fs'.inodes[m] == fs.inodes[m])
  }

  lemma EmptiedBitmap(fs: Fs, fs': Fs, n: int, freed: set<Path>)
    requires Inv(fs) && Emptied(fs, fs', n, freed)
    ensures Shape(fs') && forall b :: Marked(fs', b) <==> Marked(fs, b) && !(exists p :: Holds(fs, n, p, b))
  {
    forall b
      ensures Gone(fs, n, freed, b) <==> exists p :: Holds(fs, n, p, b)
    {
      if p :| Holds(fs, n, p, b) {
        assert p in freed;
      }
    }
    assert !Gone(fs, n, freed, fs.first - 1) by {
      assert !Marked(fs, fs.first - 1);
    }
  }

  lemma TruncatedBitmap(fs: Fs, fs': Fs, n: int, freed: set<Path>)
    requires Inv(fs) && Emptied(fs, fs', n, freed)
    ensures Inv(fs') && Truncated(fs, fs', n)
  {
    EmptiedBitmap(fs, fs', n, freed);
    forall m, p, b
      ensures Holds(fs', m, p, b) <==> m != n && Holds(fs, m, p, b)
    {
    }
    if NoLeak(fs) {
      forall b | Marked(fs', b)
        ensures exists m, p :: Holds(fs', m, p, b)
      {
        assert Marked(fs, b);
        var m, p :| Holds(fs, m, p, b);
        assert Holds(fs', m, p, b);
      }
    }
  }

  /** In bits: bit i of the map stands for block first - 1 + i, and loses its mark exactly when the inode had that block. */
  lemma TruncatedBits(fs: Fs, fs': Fs, n: int, i: nat)
    requires Shape(fs) && Shape(fs') && Truncated(fs, fs', n) && fs.inodes[n].regularOrDir && 1 <= i <= fs.nzones - fs.first
    ensures fs'.zmap[i] <==> fs.zmap[i] && !Owns(fs, n, fs.first - 1 + i)
    ensures fs'.inodes[n].size == 0 && forall j :: 0 <= j < 9 ==> fs'.inodes[n].zone[j] == 0
  {
    assert forall j :: 0 <= j < 9 ==> At(fs', n, Zone(j)) == fs'.inodes[n].zone[j];
    assert Marked(fs', fs.first - 1 + i) <==> fs'.zmap[i];
    assert Marked(fs, fs.first - 1 + i) <==> fs.zmap[i];
  }

  /** The places that creating block k of a file may fill. */
  function Route(k: nat): set<Path>
    requires k < MAX_BLOCKS
  {
    if k < 7 then {Zone(k)}
    else if k < 7 + 512 then {Zone(7), Leaf(k - 7)}
    else {Zone(8), Middle((k - 519) / 512), DeepLeaf((k - 519) / 512, (k - 519) % 512)}
  }

  lemma GrownMore(fs: Fs, fs': Fs, n: int, r: set<Path>, r': set<Path>)
    requires Shape(fs) && Shape(fs') && Grown(fs, fs', n, r) && r <= r'
    ensures Grown(fs, fs', n, r')
  {
  }

  /** create_block changes the file-to-disk mapping at the requested index and nowhere else. */
  lemma OneBlockChanges(fs: Fs, fs': Fs, n: int, k: nat)
    requires Shape(fs) && Shape(fs') && k < MAX_BLOCKS && Grown(fs, fs', n, Route(k))
    ensures forall n', k' :: 0 <= n' < |fs.inodes| && 0 <= k' < MAX_BLOCKS && (n' != n || k' != k) ==> Bmap(fs', n', k') == Bmap(fs, n', k')
    ensures forall n', k' :: 0 <= n' < |fs.inodes| && 0 <= k' < MAX_BLOCKS && Bmap(fs, n', k') != 0 ==> Bmap(fs', n', k') == Bmap(fs, n', k')
  {
    forall n', k' | 0 <= n' < |fs.inodes| && 0 <= k' < MAX_BLOCKS && (n' != n || k' != k)
      ensures Bmap(fs', n', k') == Bmap(fs, n', k')
    {
      if PathOf(k') in Route(k) {
        PathOfInjective(k, k');
      }
    }
  }

  lemma FailedAllocation(fs: Fs, fs': Fs, n: int, route: set<Path>)
    requires Inv(fs) && Full(fs)
    requires fs' == fs || exists i :: fs.nzones - fs.first < i < |fs.zmap| && fs' == SetSpare(fs, i)
    ensures Inv(fs') && Full(fs') && Grown(fs, fs', n, route)
    ensures forall n, p :: 0 <= n < |fs.inodes| && Valid(p) ==> At(fs', n, p) == At(fs, n, p)
  {
    if fs' != fs {
      var i :| fs.nzones - fs.first < i < |fs.zmap| && fs' == SetSpare(fs, i);
      SpareIsNothing(fs, i, n);
    }
  }
}
