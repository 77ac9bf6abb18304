/** fs/buffer.c with its lists, one task at a time and every transfer succeeding: the cache and
    the device together behave like the device alone.
 */
module BufferCaches {
  import opened BufferLists

  const NR_HASH: nat := 307

  /** _hashfn */
  function Hash(dev: int, block: int): (h: int)
    requires 0 <= dev < 0x1_0000 && 0 <= block < 0x1_0000
    ensures 0 <= h < NR_HASH
  {
    ((dev as bv16 ^ block as bv16) as int) % NR_HASH
  }

  // ---------------------------------------------------------------- the lists

  /** The labels and links of all buffer heads, hash_table[] and free_list. */
  datatype Links = Links(dev: seq<int>, block: seq<int>, next: seq<int>, prev: seq<int>,
                         nextFree: seq<int>, prevFree: seq<int>, hash: seq<int>, freeList: int)

  predicate Sized(l: Links, n: int) {
    && |l.dev| == |l.block| == |l.next| == |l.prev| == |l.nextFree| == |l.prevFree| == n && |l.hash| == NR_HASH
    && (forall b :: 0 <= b < n ==> 0 <= l.dev[b] < 0x1_0000 && 0 <= l.block[b] < 0x1_0000)
  }

  function Bucket(l: Links, b: int): (h: int)
    requires Sized(l, |l.dev|) && 0 <= b < |l.dev|
    ensures 0 <= h < NR_HASH
  {
    Hash(l.dev[b], l.block[b])
  }

  /** free is the free list and chains[h] the chain of bucket h, as the links say; exactly the
      listed buffers that have a device are hashed, each in the bucket of its label. */
  ghost predicate Linked(l: Links, n: int, free: seq<int>, chains: seq<seq<int>>) {
    && Sized(l, n) && |chains| == NR_HASH
    && Ring(free, l.nextFree, l.prevFree) && free != [] && l.freeList == free[0]
    && (forall h :: 0 <= h < NR_HASH ==> Chain(chains[h], l.next, l.prev) && l.hash[h] == Head(chains[h]))
    && (forall h, b :: InChain(chains, h, b) ==> b in free && 0 <= b < n && l.dev[b] != 0 && Bucket(l, b) == h)
    && (forall b :: b in free ==> Placed(l, n, chains, b))
  }

  predicate InChain(chains: seq<seq<int>>, h: int, b: int) { 0 <= h < |chains| && b in chains[h] }

  /** A listed buffer is in the bucket of its label, or has no label and no links. */
  ghost predicate Placed(l: Links, n: int, chains: seq<seq<int>>, b: int)
    requires Sized(l, n)
  {
    0 <= b < n && if l.dev[b] != 0 then InChain(chains, Bucket(l, b), b) else l.next[b] == NULL && l.prev[b] == NULL
  }

  /** remove_from_queues */
  function Unlink(l: Links, b: int): Links
    requires Sized(l, |l.dev|) && 0 <= b < |l.dev|
    requires (l.prev[b] != NULL ==> 0 <= l.prev[b] < |l.dev|) && (l.next[b] != NULL ==> 0 <= l.next[b] < |l.dev|)
    requires 0 <= l.prevFree[b] < |l.dev| && 0 <= l.nextFree[b] < |l.dev|
  {
    var h := Bucket(l, b);
    l.(prev := Skip(l.prev, l.next, b),
       next := Skip(l.next, l.prev, b),
       hash := if l.hash[h] == b then l.hash[h := l.next[b]] else l.hash,
       nextFree := l.nextFree[l.prevFree[b] := l.nextFree[b]],
       prevFree := l.prevFree[l.nextFree[b] := l.prevFree[b]],
       freeList := if l.freeList == b then l.nextFree[b] else l.freeList)
  }

  ghost function ChainsWithout(l: Links, chains: seq<seq<int>>, b: int, j: nat): seq<seq<int>>
    requires Sized(l, |l.dev|) && 0 <= b < |l.dev| && |chains| == NR_HASH
    requires l.dev[b] != 0 ==> j < |chains[Bucket(l, b)]|
  {
    if l.dev[b] == 0 then chains else chains[Bucket(l, b) := Without(chains[Bucket(l, b)], j)]
  }

  /** b is entry i of the free list, and entry j of its chain if it is hashed. */
  ghost predicate At(l: Links, free: seq<int>, chains: seq<seq<int>>, b: int, i: nat, j: nat) {
    && Sized(l, |l.dev|) && |chains| == NR_HASH && 0 <= b < |l.dev| && i < |free| && free[i] == b
    && (l.dev[b] != 0 ==> j < |chains[Bucket(l, b)]| && chains[Bucket(l, b)][j] == b)
  }

  /** The links of b stay inside its own lists. */
  lemma LinksOf(l: Links, n: int, free: seq<int>, chains: seq<seq<int>>, b: int, i: nat, j: nat)
    requires Linked(l, n, free, chains) && At(l, free, chains, b, i, j)
    ensures 0 <= l.prevFree[b] < n && 0 <= l.nextFree[b] < n
    ensures (l.prev[b] != NULL ==> 0 <= l.prev[b] < n) && (l.next[b] != NULL ==> 0 <= l.next[b] < n)
    ensures l.dev[b] != 0 ==> (l.next[b] == NULL || l.next[b] in chains[Bucket(l, b)]) && (l.prev[b] == NULL || l.prev[b] in chains[Bucket(l, b)])
  {
    RingNeighbours(free, l.nextFree, l.prevFree, i);
    assert b in free;
    if l.dev[b] != 0 {
      ChainNeighbours(chains[Bucket(l, b)], l.next, l.prev, j);
    }
  }

  /** Two buckets have no buffer in common. */
  lemma ChainsApart(l: Links, n: int, free: seq<int>, chains: seq<seq<int>>, h: int, g: int)
    requires Linked(l, n, free, chains) && 0 <= h < NR_HASH && 0 <= g < NR_HASH && h != g
    ensures forall x :: x in chains[h] ==> x !in chains[g]
  {
    forall x | x in chains[h]
      ensures x !in chains[g]
    {
      assert InChain(chains, h, x);
      assert x in chains[g] <==> InChain(chains, g, x);
    }
  }

  lemma UnlinkChains(l: Links, n: int, free: seq<int>, chains: seq<seq<int>>, b: int, i: nat, j: nat)
    requires Linked(l, n, free, chains) && At(l, free, chains, b, i, j)
    requires 0 <= l.prevFree[b] < n && 0 <= l.nextFree[b] < n
    requires (l.prev[b] != NULL ==> 0 <= l.prev[b] < n) && (l.next[b] != NULL ==> 0 <= l.next[b] < n)
    ensures var l', chains' := Unlink(l, b), ChainsWithout(l, chains, b, j);
      forall h :: 0 <= h < NR_HASH ==> Chain(chains'[h], l'.next, l'.prev) && l'.hash[h] == Head(chains'[h])
  {
    var l', chains', g := Unlink(l, b), ChainsWithout(l, chains, b, j), Bucket(l, b);
    assert b in free;
    forall h | 0 <= h < NR_HASH
      ensures Chain(chains'[h], l'.next, l'.prev) && l'.hash[h] == Head(chains'[h])
    {
      if l.dev[b] == 0 {
        assert b in chains[h] <==> InChain(chains, h, b);
        ChainFrame(chains[h], l.next, l.prev, l'.next, l'.prev);
      } else if h == g {
        ChainRemove(chains[g], l.next, l.prev, j);
      } else {
        ChainNeighbours(chains[g], l.next, l.prev, j);
        ChainsApart(l, n, free, chains, h, g);
        ChainFrame(chains[h], l.next, l.prev, l'.next, l'.prev);
      }
    }
  }

  /** remove_from_queues takes b off both its lists and leaves all others as they are. */
  lemma UnlinkOk(l: Links, n: int, free: seq<int>, chains: seq<seq<int>>, b: int, i: nat, j: nat)
    requires Linked(l, n, free, chains) && At(l, free, chains, b, i, j) && |free| >= 2
    ensures 0 <= l.prevFree[b] < n && 0 <= l.nextFree[b] < n
    ensures (l.prev[b] != NULL ==> 0 <= l.prev[b] < n) && (l.next[b] != NULL ==> 0 <= l.next[b] < n)
    ensures Linked(Unlink(l, b), n, Without(free, i), ChainsWithout(l, chains, b, j))
  {
    LinksOf(l, n, free, chains, b, i, j);
    UnlinkChains(l, n, free, chains, b, i, j);
    RingNeighbours(free, l.nextFree, l.prevFree, i);
    RingRemove(free, l.nextFree, l.prevFree, i);
    UnlinkPlaces(l, n, free, chains, b, i, j);
  }

  lemma UnlinkPlaces(l: Links, n: int, free: seq<int>, chains: seq<seq<int>>, b: int, i: nat, j: nat)
    requires Linked(l, n, free, chains) && At(l, free, chains, b, i, j)
    requires 0 <= l.prevFree[b] < n && 0 <= l.nextFree[b] < n
    requires (l.prev[b] != NULL ==> 0 <= l.prev[b] < n) && (l.next[b] != NULL ==> 0 <= l.next[b] < n)
    ensures var l', free', chains' := Unlink(l, b), Without(free, i), ChainsWithout(l, chains, b, j);
      && (forall h, x :: InChain(chains', h, x) ==> x in free' && 0 <= x < n && l'.dev[x] != 0 && Bucket(l', x) == h)
      && (forall x :: x in free' ==> Placed(l', n, chains', x))
  {
    LinksOf(l, n, free, chains, b, i, j);
    WithoutKeeps(free, i, n);
    var l', free', chains', g := Unlink(l, b), Without(free, i), ChainsWithout(l, chains, b, j), Bucket(l, b);
    if l.dev[b] != 0 {
      WithoutKeeps(chains[g], j, n);
    }
    forall h, x
      ensures InChain(chains', h, x) <==> InChain(chains, h, x) && x != b
    {
      if InChain(chains, h, b) {
        assert Bucket(l, b) == h;
      }
    }
    forall x | x in free'
      ensures Placed(l', n, chains', x)
    {
      assert Placed(l, n, chains, x) && Placed(l, n, chains, b);
      if l.dev[x] == 0 {
        assert l.prev[b] != NULL ==> InChain(chains, g, l.prev[b]);
        assert l.next[b] != NULL ==> InChain(chains, g, l.next[b]);
      }
    }
  }

  /** insert_into_queues, with the back link set only when there is a next buffer. */
  function Enlist(l: Links, b: int): Links
    requires Sized(l, |l.dev|) && 0 <= b < |l.dev| && 0 <= l.freeList < |l.dev| && 0 <= l.prevFree[l.freeList] < |l.dev|
    requires l.hash[Bucket(l, b)] != NULL ==> 0 <= l.hash[Bucket(l, b)] < |l.dev|
  {
    var first, last, h := l.freeList, l.prevFree[l.freeList], Bucket(l, b);
    var l1 := l.(nextFree := l.nextFree[b := first][last := b], prevFree := l.prevFree[b := last][first := b]);
    if l.dev[b] == 0 then l1.(prev := l.prev[b := NULL], next := l.next[b := NULL]) else
      l1.(next := l.next[b := l.hash[h]],
          hash := l.hash[h := b],
          prev := if l.hash[h] == NULL then l.prev[b := NULL] else l.prev[b := NULL][l.hash[h] := b])
  }

  ghost function ChainsWith(l: Links, chains: seq<seq<int>>, b: int): seq<seq<int>>
    requires Sized(l, |l.dev|) && 0 <= b < |l.dev| && |chains| == NR_HASH
  {
    if l.dev[b] == 0 then chains else chains[Bucket(l, b) := [b] + chains[Bucket(l, b)]]
  }

  lemma EnlistChains(l: Links, n: int, free: seq<int>, chains: seq<seq<int>>, b: int)
    requires Linked(l, n, free, chains) && 0 <= b < n && b !in free
    requires 0 <= l.freeList < n && 0 <= l.prevFree[l.freeList] < n && (l.hash[Bucket(l, b)] != NULL ==> 0 <= l.hash[Bucket(l, b)] < n)
    ensures var l', chains' := Enlist(l, b), ChainsWith(l, chains, b);
      forall h :: 0 <= h < NR_HASH ==> Chain(chains'[h], l'.next, l'.prev) && l'.hash[h] == Head(chains'[h])
  {
    var l', chains', g := Enlist(l, b), ChainsWith(l, chains, b), Bucket(l, b);
    forall h | 0 <= h < NR_HASH
      ensures Chain(chains'[h], l'.next, l'.prev) && l'.hash[h] == Head(chains'[h])
    {
      assert b in chains[h] <==> InChain(chains, h, b);
      if l.dev[b] != 0 && h == g {
        ChainPush(chains[g], l.next, l.prev, b);
      } else {
        if h != g {
          ChainsApart(l, n, free, chains, g, h);
          assert chains[g] != [] ==> chains[g][0] in chains[g];
        }
        ChainFrame(chains[h], l.next, l.prev, l'.next, l'.prev);
      }
    }
  }

  lemma EnlistOk(l: Links, n: int, free: seq<int>, chains: seq<seq<int>>, b: int)
    requires Linked(l, n, free, chains) && 0 <= b < n && b !in free
    ensures 0 <= l.freeList < n && 0 <= l.prevFree[l.freeList] < n
    ensures l.hash[Bucket(l, b)] != NULL ==> 0 <= l.hash[Bucket(l, b)] < n
    ensures Linked(Enlist(l, b), n, free + [b], ChainsWith(l, chains, b))
  {
    RingAppend(free, l.nextFree, l.prevFree, b);
    var g := Bucket(l, b);
    assert chains[g] != [] ==> InChain(chains, g, chains[g][0]);
    EnlistChains(l, n, free, chains, b);
    EnlistPlaces(l, n, free, chains, b);
  }

  lemma EnlistPlaces(l: Links, n: int, free: seq<int>, chains: seq<seq<int>>, b: int)
    requires Linked(l, n, free, chains) && 0 <= b < n && b !in free
    requires 0 <= l.freeList < n && 0 <= l.prevFree[l.freeList] < n && (l.hash[Bucket(l, b)] != NULL ==> 0 <= l.hash[Bucket(l, b)] < n)
    ensures var l', chains' := Enlist(l, b), ChainsWith(l, chains, b);
      && (forall h, x :: InChain(chains', h, x) ==> x in free + [b] && 0 <= x < n && l'.dev[x] != 0 && Bucket(l', x) == h)
      && (forall x :: x in free + [b] ==> Placed(l', n, chains', x))
  {
    var l', chains', g := Enlist(l, b), ChainsWith(l, chains, b), Bucket(l, b);
    forall h, x
      ensures InChain(chains', h, x) <==> InChain(chains, h, x) || (l.dev[b] != 0 && h == g && x == b)
    {
    }
    forall x | x in free + [b]
      ensures Placed(l', n, chains', x)
    {
      if x != b {
        assert x in free && Placed(l, n, chains, x);
        if l.dev[x] == 0 && chains[g] != [] {
          assert InChain(chains, g, chains[g][0]);
        }
      }
    }
  }

  // ---------------------------------------------------------------- contents

  type Data = seq<int>

  datatype Buf = Buf(uptodate: bool, dirt: bool, count: int, data: Data)

  /** Labels, buffers and the device: block (dev, block) of the device, or an empty one never written. */
  datatype View = View(dev: seq<int>, block: seq<int>, bufs: seq<Buf>, disk: map<(int, int), Data>)

  function OnDisk(v: View, d: int, k: int): Data {
    if (d, k) in v.disk then v.disk[(d, k)] else []
  }

  predicate Fits(v: View) { |v.dev| == |v.block| == |v.bufs| }

  predicate Labelled(v: View, b: int, d: int, k: int)
    requires Fits(v)
  {
    0 <= b < |v.bufs| && d != 0 && v.dev[b] == d && v.block[b] == k
  }

  /** A clean buffer that is up to date equals the device; one that is not up to date holds nothing to be saved. */
  ghost predicate Clean(v: View, b: int)
    requires Fits(v) && 0 <= b < |v.bufs|
  {
    var x := v.bufs[b];
    (x.dirt ==> x.uptodate && v.dev[b] != 0) && (v.dev[b] != 0 && x.uptodate && !x.dirt ==> x.data == OnDisk(v, v.dev[b], v.block[b]))
  }

  ghost predicate Coherent(v: View) {
    && Fits(v)
    && (forall b, b', d, k :: Labelled(v, b, d, k) && Labelled(v, b', d, k) ==> b == b')
    && (forall b :: 0 <= b < |v.bufs| ==> Clean(v, b))
  }

  predicate Current(v: View, b: int, d: int, k: int)
    requires Fits(v)
  {
    Labelled(v, b, d, k) && v.bufs[b].uptodate
  }

  /** What block (d, k) holds, seen through the cache. */
  ghost function Logical(v: View, d: int, k: int): Data
    requires Fits(v)
  {
    if b :| Current(v, b, d, k) then v.bufs[b].data else OnDisk(v, d, k)
  }

  lemma LogicalOf(v: View, b: int, d: int, k: int)
    requires Coherent(v) && Current(v, b, d, k)
    ensures Logical(v, d, k) == v.bufs[b].data
  {
  }

  ghost predicate SameLogical(v: View, v': View)
    requires Fits(v) && Fits(v')
  {
    forall d, k :: Logical(v', d, k) == Logical(v, d, k)
  }

  function SetBuf(v: View, b: int, x: Buf): View
    requires Fits(v) && 0 <= b < |v.bufs|
  {
    v.(bufs := v.bufs[b := x])
  }

  /** ll_rw_block(WRITE): the buffer reaches the device and is clean. */
  function WriteOut(v: View, b: int): View
    requires Fits(v) && 0 <= b < |v.bufs|
  {
    SetBuf(v.(disk := v.disk[(v.dev[b], v.block[b]) := v.bufs[b].data]), b, v.bufs[b].(dirt := false, uptodate := true))
  }

  lemma WriteOutKeeps(v: View, b: int)
    requires Coherent(v) && 0 <= b < |v.bufs| && v.bufs[b].dirt
    ensures Coherent(WriteOut(v, b)) && SameLogical(v, WriteOut(v, b))
  {
    var v' := WriteOut(v, b);
    assert Clean(v, b);
    assert Labelled(v, b, v.dev[b], v.block[b]);
    forall x, d, k
      ensures Labelled(v', x, d, k) <==> Labelled(v, x, d, k)
      ensures Current(v', x, d, k) <==> Current(v, x, d, k)
    {
    }
    forall x | 0 <= x < |v'.bufs|
      ensures Clean(v', x)
    {
      assert Clean(v, x);
      if x != b && v.dev[x] == v.dev[b] && v.block[x] == v.block[b] {
        assert Labelled(v, x, v.dev[b], v.block[b]);
      }
    }
    forall d, k
      ensures Logical(v', d, k) == Logical(v, d, k)
    {
      if x :| Current(v, x, d, k) {
        LogicalOf(v, x, d, k);
        LogicalOf(v', x, d, k);
      } else {
        assert !(d == v.dev[b] && k == v.block[b]) by {
          assert Current(v, b, v.dev[b], v.block[b]);
        }
      }
    }
  }

  /** The buffer takes a new label and is empty. */
  function Relabel(v: View, b: int, d: int, k: int): View
    requires Fits(v) && 0 <= b < |v.bufs|
  {
    View(v.dev[b := d], v.block[b := k], v.bufs[b := v.bufs[b].(dirt := false, uptodate := false)], v.disk)
  }

  lemma RelabelKeeps(v: View, b: int, d: int, k: int)
    requires Coherent(v) && 0 <= b < |v.bufs| && !v.bufs[b].dirt && d != 0 && forall x :: !Labelled(v, x, d, k)
    ensures Coherent(Relabel(v, b, d, k)) && SameLogical(v, Relabel(v, b, d, k))
  {
    var v' := Relabel(v, b, d, k);
    forall x, e, j
      ensures Labelled(v', x, e, j) <==> if x == b then e == d && j == k else Labelled(v, x, e, j)
    {
    }
    forall x | 0 <= x < |v'.bufs|
      ensures Clean(v', x)
    {
      assert Clean(v, x);
    }
    forall e, j
      ensures Logical(v', e, j) == Logical(v, e, j)
    {
      assert Clean(v, b);
      if x :| Current(v, x, e, j) {
        LogicalOf(v, x, e, j);
        if x != b {
          assert Current(v', x, e, j);
          LogicalOf(v', x, e, j);
        } else {
          assert forall y :: !Current(v', y, e, j) by {
            forall y
              ensures !Current(v', y, e, j)
            {
              assert y != b ==> !Labelled(v, y, e, j);
            }
          }
        }
      } else {
        forall y
          ensures !Current(v', y, e, j)
        {
          assert !Current(v, y, e, j);
        }
      }
    }
  }

  /** ll_rw_block(READ) on a buffer that is not up to date. */
  function ReadIn(v: View, b: int): View
    requires Fits(v) && 0 <= b < |v.bufs|
  {
    SetBuf(v, b, v.bufs[b].(uptodate := true, dirt := false, data := OnDisk(v, v.dev[b], v.block[b])))
  }

  lemma ReadInKeeps(v: View, b: int)
    requires Coherent(v) && 0 <= b < |v.bufs| && !v.bufs[b].uptodate && v.dev[b] != 0
    ensures Coherent(ReadIn(v, b)) && SameLogical(v, ReadIn(v, b))
  {
    var v' := ReadIn(v, b);
    StoreKeeps(v, b, v'.bufs[b]);
    assert forall x :: !Current(v, x, v.dev[b], v.block[b]) by {
      forall x
        ensures !Current(v, x, v.dev[b], v.block[b])
      {
        assert Labelled(v, b, v.dev[b], v.block[b]);
      }
    }
    LogicalOf(v', b, v.dev[b], v.block[b]);
  }

  /** Putting new contents into a labelled buffer changes that block and no other. */
  lemma StoreKeeps(v: View, b: int, x: Buf)
    requires Coherent(v) && 0 <= b < |v.bufs| && v.dev[b] != 0 && x.uptodate
    requires x.dirt || x.data == OnDisk(v, v.dev[b], v.block[b])
    ensures Coherent(SetBuf(v, b, x))
    ensures Logical(SetBuf(v, b, x), v.dev[b], v.block[b]) == x.data
    ensures forall d, k :: (d, k) != (v.dev[b], v.block[b]) ==> Logical(SetBuf(v, b, x), d, k) == Logical(v, d, k)
  {
    var v' := SetBuf(v, b, x);
    forall y, d, k
      ensures Labelled(v', y, d, k) <==> Labelled(v, y, d, k)
    {
    }
    forall y | 0 <= y < |v'.bufs|
      ensures Clean(v', y)
    {
      assert Clean(v, y);
    }
    assert Current(v', b, v.dev[b], v.block[b]);
    LogicalOf(v', b, v.dev[b], v.block[b]);
    forall d, k | (d, k) != (v.dev[b], v.block[b])
      ensures Logical(v', d, k) == Logical(v, d, k)
    {
      OtherBlock(v, v', b, d, k);
    }
  }

  lemma OtherBlock(v: View, v': View, b: int, d: int, k: int)
    requires Coherent(v) && Coherent(v') && v'.dev == v.dev && v'.block == v.block && 0 <= b < |v.bufs| && v'.disk == v.disk
    requires forall y :: 0 <= y < |v.bufs| && y != b ==> v'.bufs[y] == v.bufs[y]
    requires (d, k) != (v.dev[b], v.block[b])
    ensures Logical(v', d, k) == Logical(v, d, k)
  {
    if y :| Current(v, y, d, k) {
      assert Current(v', y, d, k);
      LogicalOf(v, y, d, k);
      LogicalOf(v', y, d, k);
    } else {
      assert forall y :: !Current(v', y, d, k) by {
        forall y
          ensures !Current(v', y, d, k)
        {
          assert !Current(v, y, d, k);
        }
      }
    }
  }

  // ---------------------------------------------------------------- the cache

  class BufferCache {
    const n: nat
    var l: Links
    var bufs: seq<Buf>
    var disk: map<(int, int), Data>
    ghost var free: seq<int>
    ghost var chains: seq<seq<int>>

    ghost function Seen(): View
      reads this
    {
      View(l.dev, l.block, bufs, disk)
    }

    /** Between calls every buffer is on the free list. */
    ghost predicate Valid()
      reads this
    {
      && n >= 2 && |bufs| == n && Linked(l, n, free, chains) && Coherent(Seen())
      && (forall b :: 0 <= b < n ==> b in free) && (forall b :: 0 <= b < n ==> bufs[b].count >= 0)
    }

    /** find_buffer */
    method FindBuffer(dev: int, block: int) returns (b: int)
      requires Valid() && 0 <= dev < 0x1_0000 && 0 <= block < 0x1_0000
      ensures b != NULL ==> 0 <= b < n && l.dev[b] == dev && l.block[b] == block && dev != 0
      ensures b == NULL && dev != 0 ==> forall x :: !Labelled(Seen(), x, dev, block)
    {
      var h := Hash(dev, block);
      ghost var k: nat := 0;
      b := l.hash[h];
      while b != NULL && !(l.dev[b] == dev && l.block[b] == block)
        invariant k <= |chains[h]| && b == if k < |chains[h]| then chains[h][k] else NULL
        invariant b != NULL ==> 0 <= b < n && k < |chains[h]|
        invariant forall i :: 0 <= i < k ==> !(l.dev[chains[h][i]] == dev && l.block[chains[h][i]] == block)
        decreases |chains[h]| - k
      {
        assert ChainAt(chains[h], l.next, l.prev, k);
        b := l.next[b];
        k := k + 1;
      }
      if b != NULL {
        assert InChain(chains, h, b);
      } else if dev != 0 {
        forall x | 0 <= x < n
          ensures !(l.dev[x] == dev && l.block[x] == block)
        {
          assert x in free && Placed(l, n, chains, x);
          assert l.dev[x] == dev && l.block[x] == block ==> InChain(chains, h, x);
        }
      }
    }

    /** The scan of getblk: the first buffer of the free list whose count is 0, NULL if none. */
    method FindUnused() returns (b: int, ghost k: nat)
      requires Valid()
      ensures b == NULL <==> forall x :: 0 <= x < n ==> bufs[x].count != 0
      ensures b != NULL ==> 0 <= b < n && bufs[b].count == 0 && OldestUnused(free, bufs, k, b)
    {
      b, k := l.freeList, 0;
      while bufs[b].count != 0
        invariant k < |free| && b == free[k] && 0 <= b < n
        invariant forall i :: 0 <= i < k ==> bufs[free[i]].count != 0
        decreases |free| - k
      {
        RingNeighbours(free, l.nextFree, l.prevFree, k);
        b := l.nextFree[b];
        if b == l.freeList {
          assert k + 1 == |free|;
          forall x | 0 <= x < n
            ensures bufs[x].count != 0
          {
            assert x in free;
          }
          return NULL, k;
        }
        k := k + 1;
      }
    }

    /** sync_dev */
    method SyncDev(dev: int)
      requires |bufs| == n && Coherent(Seen())
      modifies this`bufs, this`disk
      ensures |bufs| == n && Coherent(Seen()) && SameLogical(old(Seen()), Seen())
      ensures forall b :: 0 <= b < n ==> bufs[b].count == old(bufs)[b].count && (l.dev[b] == dev ==> !bufs[b].dirt)
      ensures forall b :: 0 <= b < n && !old(bufs)[b].dirt ==> !bufs[b].dirt
    {
      for i := 0 to n
        invariant |bufs| == n && Coherent(Seen()) && SameLogical(old(Seen()), Seen())
        invariant forall b :: 0 <= b < n ==> bufs[b].count == old(bufs)[b].count
        invariant forall b :: 0 <= b < i && l.dev[b] == dev ==> !bufs[b].dirt
        invariant forall b :: 0 <= b < n && !old(bufs)[b].dirt ==> !bufs[b].dirt
      {
        if l.dev[i] == dev && bufs[i].dirt {
          WriteOutKeeps(Seen(), i);
          disk := disk[(l.dev[i], l.block[i]) := bufs[i].data];
          bufs := bufs[i := bufs[i].(dirt := false, uptodate := true)];
        }
      }
    }

    /** getblk with nobody else about; NULL where the source goes to sleep because every buffer is in use. */
    method Getblk(dev: int, block: int) returns (b: int)
      requires Valid() && 0 < dev < 0x1_0000 && 0 <= block < 0x1_0000
      modifies this
      ensures Valid() && SameLogical(old(Seen()), Seen())
      ensures b == NULL <==> forall x :: 0 <= x < n ==> old(bufs)[x].count != 0 && !Labelled(old(Seen()), x, dev, block)
      ensures b == NULL ==> bufs == old(bufs) && l == old(l)
      ensures free != old(free) ==> exists i: nat :: OldestUnused(old(free), old(bufs), i, b) && Moved(old(free), free, i, b)
      ensures b != NULL && (forall x :: !Labelled(old(Seen()), x, dev, block)) ==>
        exists i: nat :: OldestUnused(old(free), old(bufs), i, b) && Moved(old(free), free, i, b)
      ensures forall x :: Labelled(old(Seen()), x, dev, block) ==> x == b
      ensures b != NULL ==> old(bufs)[b].count == 0 || Labelled(old(Seen()), b, dev, block)
      ensures b != NULL ==> Labelled(Seen(), b, dev, block) && bufs[b].count == old(bufs)[b].count + 1
      ensures b != NULL ==> forall x :: 0 <= x < n && x != b ==> bufs[x].count == old(bufs)[x].count && l.dev[x] == old(l).dev[x] && l.block[x] == old(l).block[x]
    {
      b := FindBuffer(dev, block);
      if b != NULL {
        assert Labelled(Seen(), b, dev, block);
        CountOnly(Seen(), b, bufs[b].count + 1);
        bufs := bufs[b := bufs[b].(count := bufs[b].count + 1)];
        return;
      }
      ghost var i: nat;
      b, i := FindUnused();
      if b != NULL {
        Evict(b, dev, block, i);
        assert Moved(old(free), free, i, b);
      }
    }

    /** remove_from_queues: b leaves the free list and its chain. */
    method RemoveFromQueues(b: int, ghost i: nat)
      requires n >= 2 && Linked(l, n, free, chains) && 0 <= b < n && i < |free| && free[i] == b && forall x :: 0 <= x < n ==> x in free
      modifies this`l, this`free, this`chains
      ensures Linked(l, n, free, chains) && l.dev == old(l).dev && l.block == old(l).block
      ensures free == Without(old(free), i) && forall x :: 0 <= x < n ==> (x in free <==> x != b)
    {
      ghost var j: nat := 0;
      if l.dev[b] != 0 {
        assert Placed(l, n, chains, b);
        j :| 0 <= j < |chains[Bucket(l, b)]| && chains[Bucket(l, b)][j] == b;
      }
      MoreThanOne(free, n);
      UnlinkOk(l, n, free, chains, b, i, j);
      WithoutKeeps(free, i, n);
      free, chains := Without(free, i), ChainsWithout(l, chains, b, j);
      UnlinkInPlace(b);
    }

    /** The pointer assignments of remove_from_queues. */
    method UnlinkInPlace(b: int)
      requires Sized(l, n) && 0 <= b < n
      requires (l.prev[b] != NULL ==> 0 <= l.prev[b] < n) && (l.next[b] != NULL ==> 0 <= l.next[b] < n)
      requires 0 <= l.prevFree[b] < n && 0 <= l.nextFree[b] < n
      modifies this`l
      ensures l == Unlink(old(l), b)
    {
      var h, nx, pv := Hash(l.dev[b], l.block[b]), l.next[b], l.prev[b];
      if nx != NULL {
        l := l.(prev := l.prev[nx := pv]);
      }
      if pv != NULL {
        l := l.(next := l.next[pv := nx]);
      }
      if l.hash[h] == b {
        l := l.(hash := l.hash[h := nx]);
      }
      var nf, pf := l.nextFree[b], l.prevFree[b];
      l := l.(nextFree := l.nextFree[pf := nf]);
      l := l.(prevFree := l.prevFree[nf := pf]);
      if l.freeList == b {
        l := l.(freeList := nf);
      }
    }

    /** insert_into_queues: b goes to the end of the free list and to the head of the chain of its label. */
    method InsertIntoQueues(b: int)
      requires Linked(l, n, free, chains) && 0 <= b < n && forall x :: 0 <= x < n ==> (x in free <==> x != b)
      modifies this`l, this`free, this`chains
      ensures Linked(l, n, free, chains) && l.dev == old(l).dev && l.block == old(l).block
      ensures free == old(free) + [b] && forall x :: 0 <= x < n ==> x in free
    {
      EnlistOk(l, n, free, chains, b);
      free, chains := free + [b], ChainsWith(l, chains, b);
      EnlistInPlace(b);
    }

    /** The pointer assignments of insert_into_queues. */
    method EnlistInPlace(b: int)
      requires Sized(l, n) && 0 <= b < n && 0 <= l.freeList < n && 0 <= l.prevFree[l.freeList] < n
      requires l.hash[Bucket(l, b)] != NULL ==> 0 <= l.hash[Bucket(l, b)] < n
      modifies this`l
      ensures l == Enlist(old(l), b)
    {
      ghost var e := Enlist(l, b);
      var first, last := l.freeList, l.prevFree[l.freeList];
      l := l.(nextFree := l.nextFree[b := first][last := b], prevFree := l.prevFree[b := last][first := b]);
      l := l.(prev := l.prev[b := NULL], next := l.next[b := NULL]);
      if l.dev[b] != 0 {
        var h := Hash(l.dev[b], l.block[b]);
        l := l.(next := l.next[b := l.hash[h]], hash := l.hash[h := b]);
        if l.next[b] != NULL {
          l := l.(prev := l.prev[l.next[b] := b]);
        }
      }
      assert l.next == e.next;
      assert l == e;
    }

    /** Take b off the lists, write its device back if it is dirty. */
    method Detach(b: int, ghost i: nat)
      requires Valid() && 0 <= b < n && bufs[b].count == 0 && i < |free| && free[i] == b
      modifies this
      ensures free == Without(old(free), i)
      ensures Linked(l, n, free, chains) && (forall x :: 0 <= x < n ==> (x in free <==> x != b))
      ensures |bufs| == n && Coherent(Seen()) && SameLogical(old(Seen()), Seen())
      ensures l.dev == old(l).dev && l.block == old(l).block && !bufs[b].dirt && bufs[b].count == 1
      ensures forall x :: 0 <= x < n && x != b ==> bufs[x].count == old(bufs)[x].count
    {
      CountOnly(Seen(), b, 1);
      bufs := bufs[b := bufs[b].(count := bufs[b].count + 1)];
      RemoveFromQueues(b, i);
      if bufs[b].dirt {
        SyncDev(l.dev[b]);
      }
    }

    /** Give b its new label and put it back on the lists. */
    method Attach(b: int, dev: int, block: int)
      requires 0 <= b < n && |bufs| == n && 0 < dev < 0x1_0000 && 0 <= block < 0x1_0000
      requires Linked(l, n, free, chains) && (forall x :: 0 <= x < n ==> (x in free <==> x != b))
      requires Coherent(Seen()) && !bufs[b].dirt && forall x :: !Labelled(Seen(), x, dev, block)
      modifies this
      ensures Linked(l, n, free, chains) && free == old(free) + [b] && (forall x :: 0 <= x < n ==> x in free)
      ensures |bufs| == n && Coherent(Seen()) && SameLogical(old(Seen()), Seen()) && Labelled(Seen(), b, dev, block)
      ensures l.dev == old(l).dev[b := dev] && l.block == old(l).block[b := block]
      ensures forall x :: 0 <= x < n ==> bufs[x].count == old(bufs)[x].count
    {
      ghost var v := Seen();
      RelabelKeeps(v, b, dev, block);
      LabelOff(l, n, free, chains, b, dev, block);
      l := l.(dev := l.dev[b := dev], block := l.block[b := block]);
      bufs := bufs[b := bufs[b].(dirt := false, uptodate := false)];
      assert Seen() == Relabel(v, b, dev, block);
      InsertIntoQueues(b);
    }

    /** The rest of getblk, for the buffer it has settled on.  Nobody can have added the block meanwhile. */
    method Evict(b: int, dev: int, block: int, ghost i: nat)
      requires Valid() && 0 <= b < n && i < |free| && free[i] == b && bufs[b].count == 0 && 0 < dev < 0x1_0000 && 0 <= block < 0x1_0000
      requires forall x :: !Labelled(Seen(), x, dev, block)
      modifies this
      ensures Valid() && SameLogical(old(Seen()), Seen()) && Labelled(Seen(), b, dev, block) && bufs[b].count == 1
      ensures free == Without(old(free), i) + [b]
      ensures forall x :: 0 <= x < n && x != b ==> bufs[x].count == old(bufs)[x].count && l.dev[x] == old(l).dev[x] && l.block[x] == old(l).block[x]
    {
      ghost var v := Seen();
      Detach(b, i);
      assert forall x :: Labelled(Seen(), x, dev, block) <==> Labelled(v, x, dev, block);
      Attach(b, dev, block);
    }

    /** brelse.  Releasing a buffer that nobody holds is the source's panic. */
    method Brelse(b: int)
      requires Valid() && 0 <= b < n && bufs[b].count > 0
      modifies this`bufs
      ensures Valid() && SameLogical(old(Seen()), Seen()) && bufs == old(bufs)[b := old(bufs)[b].(count := old(bufs)[b].count - 1)]
    {
      CountOnly(Seen(), b, bufs[b].count - 1);
      bufs := bufs[b := bufs[b].(count := bufs[b].count - 1)];
    }

    /** bread: the caller gets what the block holds. */
    method Bread(dev: int, block: int) returns (b: int)
      requires Valid() && 0 < dev < 0x1_0000 && 0 <= block < 0x1_0000
      modifies this
      ensures Valid() && SameLogical(old(Seen()), Seen())
      ensures b == NULL <==> forall x :: 0 <= x < n ==> old(bufs)[x].count != 0 && !Labelled(old(Seen()), x, dev, block)
      ensures b == NULL ==> bufs == old(bufs) && l == old(l)
      ensures forall x :: Labelled(old(Seen()), x, dev, block) ==> x == b
      ensures b != NULL ==> Current(Seen(), b, dev, block) && bufs[b].data == Logical(old(Seen()), dev, block)
      ensures b != NULL ==> old(bufs)[b].count == 0 || Labelled(old(Seen()), b, dev, block)
      ensures b != NULL ==> bufs[b].count == old(bufs)[b].count + 1
      ensures b != NULL ==> forall x :: 0 <= x < n && x != b ==> bufs[x].count == old(bufs)[x].count && l.dev[x] == old(l).dev[x] && l.block[x] == old(l).block[x]
    {
      b := Getblk(dev, block);
      if b != NULL {
        Fill(b);
        LogicalOf(Seen(), b, dev, block);
      }
    }

    /** Read the block in unless the buffer is up to date. */
    method Fill(b: int)
      requires Valid() && 0 <= b < n && l.dev[b] != 0
      modifies this`bufs
      ensures Valid() && SameLogical(old(Seen()), Seen()) && bufs[b].uptodate
      ensures forall x :: 0 <= x < n ==> bufs[x].count == old(bufs)[x].count
    {
      if !bufs[b].uptodate {
        ghost var v := Seen();
        ReadInKeeps(v, b);
        var key := (l.dev[b], l.block[b]);
        bufs := bufs[b := bufs[b].(uptodate := true, dirt := false, data := if key in disk then disk[key] else [])];
        assert Seen() == ReadIn(v, b);
      }
    }

    /** A holder stores new contents and marks the buffer dirty: its block changes, no other. */
    method Modify(b: int, data: Data)
      requires Valid() && 0 <= b < n && bufs[b].count > 0 && l.dev[b] != 0
      modifies this`bufs
      ensures Valid() && Logical(Seen(), l.dev[b], l.block[b]) == data && forall x :: 0 <= x < n ==> bufs[x].count == old(bufs)[x].count
      ensures forall d, k :: (d, k) != (l.dev[b], l.block[b]) ==> Logical(Seen(), d, k) == Logical(old(Seen()), d, k)
    {
      StoreKeeps(Seen(), b, bufs[b].(uptodate := true, dirt := true, data := data));
      bufs := bufs[b := bufs[b].(uptodate := true, dirt := true, data := data)];
    }

    /** What free_block does to a cached block: the contents are given up, those of every other block stay. */
    method Forget(b: int)
      requires Valid() && 0 <= b < n && l.dev[b] != 0
      modifies this`bufs
      ensures Valid() && !bufs[b].uptodate && !bufs[b].dirt && forall x :: 0 <= x < n ==> bufs[x].count == old(bufs)[x].count
      ensures forall d, k :: (d, k) != (l.dev[b], l.block[b]) ==> Logical(Seen(), d, k) == Logical(old(Seen()), d, k)
    {
      ghost var v := Seen();
      bufs := bufs[b := bufs[b].(dirt := false, uptodate := false)];
      forall x, d, k
        ensures Labelled(Seen(), x, d, k) <==> Labelled(v, x, d, k)
      {
      }
      forall x | 0 <= x < n
        ensures Clean(Seen(), x)
      {
        assert Clean(v, x);
      }
      forall d, k | (d, k) != (l.dev[b], l.block[b])
        ensures Logical(Seen(), d, k) == Logical(v, d, k)
      {
        OtherBlock(v, Seen(), b, d, k);
      }
    }

    /** The cache part of free_block: a cached block that nobody uses is given up.  For a block in use
        the source returns early, and the count it has just raised stays raised. */
    method FreeCached(dev: int, block: int) returns (freed: bool)
      requires Valid() && 0 < dev < 0x1_0000 && 0 <= block < 0x1_0000
      modifies this`bufs
      ensures Valid() && (freed <==> forall x :: Labelled(old(Seen()), x, dev, block) ==> old(bufs)[x].count == 0)
      ensures freed ==> forall x :: 0 <= x < n ==> bufs[x].count == old(bufs)[x].count
      ensures freed ==> forall d, k :: (d, k) != (dev, block) ==> Logical(Seen(), d, k) == Logical(old(Seen()), d, k)
      ensures freed ==> forall x :: Labelled(old(Seen()), x, dev, block) ==> !bufs[x].dirt && !bufs[x].uptodate
      ensures !freed ==> SameLogical(old(Seen()), Seen())
      ensures !freed ==> forall x :: 0 <= x < n ==>
        bufs[x].count == old(bufs)[x].count + if Labelled(old(Seen()), x, dev, block) then 1 else 0
    {
      var b := FindBuffer(dev, block);
      if b == NULL {
        return true;
      }
      assert Labelled(Seen(), b, dev, block);
      assert forall x :: Labelled(Seen(), x, dev, block) ==> x == b;
      CountOnly(Seen(), b, bufs[b].count + 1);
      bufs := bufs[b := bufs[b].(count := bufs[b].count + 1)];
      freed := bufs[b].count == 1;
      if freed {
        GiveUp(b);
      }
    }

    /** The end of free_block for a block that only it uses. */
    method GiveUp(b: int)
      requires Valid() && 0 <= b < n && l.dev[b] != 0 && bufs[b].count == 1
      modifies this`bufs
      ensures Valid() && !bufs[b].uptodate && !bufs[b].dirt
      ensures forall x :: 0 <= x < n ==> bufs[x].count == if x == b then 0 else old(bufs)[x].count
      ensures forall d, k :: (d, k) != (l.dev[b], l.block[b]) ==> Logical(Seen(), d, k) == Logical(old(Seen()), d, k)
    {
      Forget(b);
      Brelse(b);
    }

    /** sys_sync, without the inodes: afterwards the device alone holds every block. */
    method SysSync()
      requires Valid()
      modifies this`bufs, this`disk
      ensures Valid() && SameLogical(old(Seen()), Seen()) && forall x :: 0 <= x < n ==> bufs[x].count == old(bufs)[x].count
      ensures forall d, k :: Logical(Seen(), d, k) == OnDisk(Seen(), d, k)
    {
      for i := 0 to n
        invariant Valid() && SameLogical(old(Seen()), Seen()) && forall x :: 0 <= x < n ==> bufs[x].count == old(bufs)[x].count
        invariant forall b :: 0 <= b < i ==> !bufs[b].dirt
      {
        if bufs[i].dirt {
          WriteOutKeeps(Seen(), i);
          disk := disk[(l.dev[i], l.block[i]) := bufs[i].data];
          bufs := bufs[i := bufs[i].(dirt := false, uptodate := true)];
        }
      }
      forall d, k
        ensures Logical(Seen(), d, k) == OnDisk(Seen(), d, k)
      {
        if b :| Current(Seen(), b, d, k) {
          assert Clean(Seen(), b);
          LogicalOf(Seen(), b, d, k);
        }
      }
    }

    /** buffer_init */
    constructor (nr: nat, device: map<(int, int), Data>)
      requires nr >= 2
      ensures Valid() && n == nr && disk == device
      ensures forall d, k :: Logical(Seen(), d, k) == OnDisk(Seen(), d, k)
    {
      n := nr;
      disk := device;
      bufs := seq(nr, _ => Buf(false, false, 0, []));
      l := InitialLinks(nr);
      free := seq(nr, i => i);
      chains := seq(NR_HASH, _ => []);
      new;
      InitialLinked(n, free, chains);
    }
  }

  // ---------------------------------------------------------------- runs

  /** Calls on the cache, by any number of holders: a pointer stays in use from bread to brelse. */
  datatype Op =
    | BreadOp(dev: int, block: int)
    | ModifyOp(b: int, data: Data)
    | BrelseOp(b: int)
    | SyncOp
    | FreeOp(dev: int, block: int)

  /** What a call returns: a buffer and its contents for bread, NULL where bread would sleep. */
  datatype Answer = Answer(b: int, data: Data)

  /** Who uses buffer b: its block and how often. */
  datatype Hold = Hold(dev: int, block: int, count: int)

  /** A plain disk and the pointers in use.  A block that was freed has no specified contents. */
  datatype Ref = Ref(blocks: imap<(int, int), Data>, held: map<int, Hold>)

  predicate InRange(dev: int, block: int) { 0 < dev < 0x1_0000 && 0 <= block < 0x1_0000 }

  predicate Holds(r: Ref, b: int, dev: int, block: int) {
    b in r.held && r.held[b].dev == dev && r.held[b].block == block
  }

  function Hold1(r: Ref, b: int, dev: int, block: int): Ref {
    r.(held := r.held[b := Hold(dev, block, if b in r.held then r.held[b].count + 1 else 1)])
  }

  function Drop1(r: Ref, b: int): Ref
    requires b in r.held
  {
    var h := r.held[b];
    r.(held := if h.count == 1 then r.held - {b} else r.held[b := h.(count := h.count - 1)])
  }

  /** The reference.  The only choice is the buffer that bread returns; a call with a pointer that is not in use does nothing. */
  ghost function RefStep(r: Ref, op: Op, a: Answer): Ref {
    match op
    case BreadOp(dev, block) => if InRange(dev, block) && a.b != NULL then Hold1(r, a.b, dev, block) else r
    case ModifyOp(b, data) => if b in r.held then r.(blocks := r.blocks[(r.held[b].dev, r.held[b].block) := data]) else r
    case BrelseOp(b) => if b in r.held then Drop1(r, b) else r
    case SyncOp => r
    case FreeOp(dev, block) =>
      if !InRange(dev, block) then r
      else if b :| Holds(r, b, dev, block) then Hold1(r, b, dev, block)
      else r.(blocks := r.blocks - {(dev, block)})
  }

  /** The lists in other words: the free list is the ring from free_list on, both ways round; a chain starts at its hash slot,
      ends with no next, and holds exactly the listed buffers whose label hashes there. */
  lemma LinkedLaw(l: Links, n: int, free: seq<int>, chains: seq<seq<int>>)
    requires Linked(l, n, free, chains)
    ensures free != [] && l.freeList == free[0]
    ensures forall i: nat :: i < |free| ==> 0 <= free[i] < n && l.nextFree[free[i]] == free[if i + 1 == |free| then 0 else i + 1]
    ensures forall i: nat :: i < |free| ==> l.prevFree[free[if i + 1 == |free| then 0 else i + 1]] == free[i]
    ensures forall b :: b in free && l.dev[b] != 0 ==> b in chains[Hash(l.dev[b], l.block[b])]
    ensures forall h, b :: 0 <= h < 307 && b in chains[h] ==> b in free && l.dev[b] != 0 && Hash(l.dev[b], l.block[b]) == h
    ensures forall h :: 0 <= h < 307 ==> l.hash[h] == if chains[h] == [] then NULL else chains[h][0]
  {
    forall i: nat | i < |free|
      ensures l.nextFree[free[i]] == free[if i + 1 == |free| then 0 else i + 1] && l.prevFree[free[if i + 1 == |free| then 0 else i + 1]] == free[i]
    {
      assert RingAt(free, l.nextFree, l.prevFree, i);
    }
    forall b | b in free && l.dev[b] != 0
      ensures b in chains[Hash(l.dev[b], l.block[b])]
    {
      assert Placed(l, n, chains, b);
    }
    forall h, b | 0 <= h < 307 && b in chains[h]
      ensures b in free && l.dev[b] != 0 && Hash(l.dev[b], l.block[b]) == h
    {
      assert InChain(chains, h, b);
    }
  }

  /** Coherence in other words: one buffer per block, and one that is up to date and not dirty holds what the device does. */
  lemma CoherentLaw(v: View, b: int, c: int)
    requires Coherent(v) && 0 <= b < |v.bufs| && 0 <= c < |v.bufs|
    ensures v.dev[b] != 0 && v.dev[b] == v.dev[c] && v.block[b] == v.block[c] ==> b == c
    ensures v.dev[b] != 0 && v.bufs[b].uptodate && !v.bufs[b].dirt ==>
      v.bufs[b].data == if (v.dev[b], v.block[b]) in v.disk then v.disk[(v.dev[b], v.block[b])] else []
  {
    assert Clean(v, b);
    assert v.dev[b] != 0 ==> Labelled(v, b, v.dev[b], v.block[b]);
    assert v.dev[c] != 0 ==> Labelled(v, c, v.dev[c], v.block[c]);
  }

  // ---------------------------------------------------------------- laws of the reference

  /** A store through a pointer in use changes its block and no other, and no pointer. */
  lemma ModifyLaw(r: Ref, b: int, data: Data, a: Answer)
    requires b in r.held
    ensures var r' := RefStep(r, ModifyOp(b, data), a); var key := (r.held[b].dev, r.held[b].block);
      && key in r'.blocks && r'.blocks[key] == data && r'.held == r.held
      && forall k :: k != key ==> (k in r'.blocks <==> k in r.blocks) && (k in r.blocks ==> r'.blocks[k] == r.blocks[k])
  {
  }

  /** bread adds one use of the buffer it returns and changes no block. */
  lemma BreadLaw(r: Ref, dev: int, block: int, a: Answer)
    requires 0 < dev < 0x1_0000 && 0 <= block < 0x1_0000 && a.b != NULL
    ensures var r' := RefStep(r, BreadOp(dev, block), a);
      && a.b in r'.held && r'.held[a.b].dev == dev && r'.held[a.b].block == block
      && r'.held[a.b].count == (if a.b in r.held then r.held[a.b].count + 1 else 1) && r'.blocks == r.blocks
      && forall b :: b != a.b ==> (b in r'.held <==> b in r.held) && (b in r.held ==> r'.held[b] == r.held[b])
  {
  }

  /** brelse takes one use away. */
  lemma BrelseLaw(r: Ref, b: int, a: Answer)
    requires b in r.held && r.held[b].count >= 1
    ensures var r' := RefStep(r, BrelseOp(b), a);
      && (b in r'.held <==> r.held[b].count > 1) && (b in r'.held ==> r'.held[b] == r.held[b].(count := r.held[b].count - 1))
      && r'.blocks == r.blocks && forall c :: c != b ==> (c in r'.held <==> c in r.held) && (c in r.held ==> r'.held[c] == r.held[c])
  {
  }

  /** Freeing a block that nobody uses gives up its contents and no other's. */
  lemma FreeLaw(r: Ref, dev: int, block: int, a: Answer)
    requires 0 < dev < 0x1_0000 && 0 <= block < 0x1_0000 && forall b :: !Holds(r, b, dev, block)
    ensures var r' := RefStep(r, FreeOp(dev, block), a);
      && (dev, block) !in r'.blocks && r'.held == r.held
      && forall k :: k != (dev, block) ==> (k in r'.blocks <==> k in r.blocks) && (k in r.blocks ==> r'.blocks[k] == r.blocks[k])
  {
  }

  /** What a block holds: its buffer, if one is up to date, and otherwise the device. */
  lemma LogicalLaw(v: View, d: int, k: int)
    requires Coherent(v) && d != 0
    ensures forall b :: 0 <= b < |v.bufs| && v.dev[b] == d && v.block[b] == k && v.bufs[b].uptodate ==> Logical(v, d, k) == v.bufs[b].data
    ensures (forall b :: 0 <= b < |v.bufs| && v.dev[b] == d && v.block[b] == k ==> !v.bufs[b].uptodate) ==>
      Logical(v, d, k) == if (d, k) in v.disk then v.disk[(d, k)] else []
  {
    forall b | 0 <= b < |v.bufs| && v.dev[b] == d && v.block[b] == k && v.bufs[b].uptodate
      ensures Logical(v, d, k) == v.bufs[b].data
    {
      LogicalOf(v, b, d, k);
    }
  }

  /** bread returns what the plain disk holds, through the buffer that others already use if there is one;
      it sleeps exactly when all n buffers are in use for other blocks. */
  ghost predicate RefAnswer(r: Ref, n: nat, op: Op, a: Answer) {
    op.BreadOp? && InRange(op.dev, op.block) ==>
      && (a.b == NULL ==> forall b :: 0 <= b < n ==> b in r.held && !Holds(r, b, op.dev, op.block))
      && (a.b != NULL ==> 0 <= a.b < n && (a.b in r.held ==> Holds(r, a.b, op.dev, op.block)))
      && (forall b :: Holds(r, b, op.dev, op.block) ==> a.b == b)
      && (a.b != NULL && (op.dev, op.block) in r.blocks ==> a.data == r.blocks[(op.dev, op.block)])
  }

  /** The cache shows the reference: specified blocks through their logical contents, pointers through counts and labels. */
  ghost predicate Shows(v: View, r: Ref)
    requires Fits(v)
  {
    && (forall d, k :: (d, k) in r.blocks ==> Logical(v, d, k) == r.blocks[(d, k)])
    && (forall b :: b in r.held <==> 0 <= b < |v.bufs| && v.bufs[b].count > 0)
    && (forall b :: b in r.held ==> r.held[b] == Hold(v.dev[b], v.block[b], v.bufs[b].count) && v.dev[b] != 0)
  }

  /** Contents only: the same counts and labels, and what the reference specifies. */
  lemma ShowsContents(v: View, v': View, r: Ref, r': Ref)
    requires Fits(v) && Fits(v') && Shows(v, r) && r'.held == r.held && v'.dev == v.dev && v'.block == v.block && |v'.bufs| == |v.bufs|
    requires forall b :: 0 <= b < |v.bufs| ==> v'.bufs[b].count == v.bufs[b].count
    requires forall d, k :: (d, k) in r'.blocks ==> Logical(v', d, k) == r'.blocks[(d, k)]
    ensures Shows(v', r')
  {
  }

  /** One more user of buffer b, for block (dev, block); all other counts and labels are as before. */
  lemma ShowsHold(v: View, v': View, r: Ref, b: int, dev: int, block: int)
    requires Fits(v) && Fits(v') && Shows(v, r) && SameLogical(v, v') && |v'.bufs| == |v.bufs| && Labelled(v', b, dev, block)
    requires v.bufs[b].count >= 0 && v'.bufs[b].count == v.bufs[b].count + 1
    requires forall x :: 0 <= x < |v.bufs| && x != b ==> v'.bufs[x].count == v.bufs[x].count && v'.dev[x] == v.dev[x] && v'.block[x] == v.block[x]
    ensures Shows(v', Hold1(r, b, dev, block))
  {
    var r' := Hold1(r, b, dev, block);
    forall x | x in r'.held
      ensures 0 <= x < |v.bufs| && r'.held[x] == Hold(v'.dev[x], v'.block[x], v'.bufs[x].count) && v'.dev[x] != 0
    {
    }
  }

  lemma HeldIsLabelled(v: View, r: Ref, dev: int, block: int)
    requires Fits(v) && Shows(v, r) && dev != 0
    ensures forall b :: Holds(r, b, dev, block) <==> Labelled(v, b, dev, block) && v.bufs[b].count > 0
  {
  }

  method BreadStep(c: BufferCache, op: Op, ghost r: Ref) returns (a: Answer)
    requires c.Valid() && Shows(c.Seen(), r) && op.BreadOp? && InRange(op.dev, op.block)
    modifies c
    ensures c.Valid() && Shows(c.Seen(), RefStep(r, op, a)) && RefAnswer(r, c.n, op, a)
  {
    ghost var v := c.Seen();
    var b := c.Bread(op.dev, op.block);
    a := Answer(b, if b == NULL then [] else c.bufs[b].data);
    HeldIsLabelled(v, r, op.dev, op.block);
    if b != NULL {
      ShowsHold(v, c.Seen(), r, b, op.dev, op.block);
    }
  }

  method ModifyStep(c: BufferCache, b: int, data: Data, ghost r: Ref)
    requires c.Valid() && Shows(c.Seen(), r) && b in r.held
    modifies c
    ensures c.Valid() && Shows(c.Seen(), RefStep(r, ModifyOp(b, data), Answer(NULL, [])))
  {
    ghost var v := c.Seen();
    c.Modify(b, data);
    ShowsContents(v, c.Seen(), r, RefStep(r, ModifyOp(b, data), Answer(NULL, [])));
  }

  method BrelseStep(c: BufferCache, b: int, ghost r: Ref)
    requires c.Valid() && Shows(c.Seen(), r) && b in r.held
    modifies c
    ensures c.Valid() && Shows(c.Seen(), Drop1(r, b))
  {
    c.Brelse(b);
  }

  method FreeStep(c: BufferCache, dev: int, block: int, ghost r: Ref)
    requires c.Valid() && Shows(c.Seen(), r) && InRange(dev, block)
    modifies c
    ensures c.Valid() && Shows(c.Seen(), RefStep(r, FreeOp(dev, block), Answer(NULL, [])))
  {
    ghost var v := c.Seen();
    HeldIsLabelled(v, r, dev, block);
    var freed := c.FreeCached(dev, block);
    if freed {
      ShowsContents(v, c.Seen(), r, r.(blocks := r.blocks - {(dev, block)}));
    } else {
      ghost var b :| Holds(r, b, dev, block);
      assert forall x :: Labelled(v, x, dev, block) ==> x == b;
      ShowsHold(v, c.Seen(), r, b, dev, block);
    }
  }

  /** One call refines one call of the reference. */
  method Perform(c: BufferCache, op: Op, ghost r: Ref) returns (a: Answer)
    requires c.Valid() && Shows(c.Seen(), r)
    modifies c
    ensures c.Valid() && Shows(c.Seen(), RefStep(r, op, a)) && RefAnswer(r, c.n, op, a)
  {
    a := Answer(NULL, []);
    match op {
      case BreadOp(dev, block) =>
        if InRange(dev, block) {
          a := BreadStep(c, op, r);
        }
      case ModifyOp(b, data) =>
        if 0 <= b < c.n && c.bufs[b].count > 0 {
          ModifyStep(c, b, data, r);
        }
      case BrelseOp(b) =>
        if 0 <= b < c.n && c.bufs[b].count > 0 {
          BrelseStep(c, b, r);
        }
      case SyncOp =>
        ghost var v := c.Seen();
        c.SysSync();
        ShowsContents(v, c.Seen(), r, r);
      case FreeOp(dev, block) =>
        if InRange(dev, block) {
          FreeStep(c, dev, block, r);
        }
    }
  }

  ghost function RefRun(r: Ref, ops: seq<Op>, outs: seq<Answer>): Ref
    requires |outs| == |ops|
  {
    if ops == [] then r else
      var i := |ops| - 1;
      RefStep(RefRun(r, ops[..i], outs[..i]), ops[i], outs[i])
  }

  ghost predicate Answered(r: Ref, n: nat, ops: seq<Op>, outs: seq<Answer>, i: nat)
    requires i < |ops| <= |outs|
  {
    RefAnswer(RefRun(r, ops[..i], outs[..i]), n, ops[i], outs[i])
  }

  /** Over every run, from any state and with any buffers in use, the cache is a plain disk: every bread returns what
      was last stored, through the one buffer of the block, and only a full cache makes it sleep. */
  method Run(c: BufferCache, ops: seq<Op>, ghost r: Ref) returns (outs: seq<Answer>)
    requires c.Valid() && Shows(c.Seen(), r)
    modifies c
    ensures c.Valid() && |outs| == |ops| && Shows(c.Seen(), RefRun(r, ops, outs))
    ensures forall i :: 0 <= i < |ops| ==> Answered(r, c.n, ops, outs, i)
  {
    outs := [];
    for i := 0 to |ops|
      invariant c.Valid() && |outs| == i && Shows(c.Seen(), RefRun(r, ops[..i], outs))
      invariant forall j :: 0 <= j < i ==> Answered(r, c.n, ops[..i], outs, j)
    {
      ghost var now := RefRun(r, ops[..i], outs);
      var a := Perform(c, ops[i], now);
      RunGrows(r, c.n, ops[..i], outs, ops[i], a, ops[..i + 1], outs + [a]);
      outs := outs + [a];
    }
    assert ops[..|ops|] == ops;
  }

  lemma RunGrows(r: Ref, n: nat, ops: seq<Op>, outs: seq<Answer>, op: Op, a: Answer, ops': seq<Op>, outs': seq<Answer>)
    requires |outs| == |ops| && RefAnswer(RefRun(r, ops, outs), n, op, a) && ops' == ops + [op] && outs' == outs + [a]
    requires forall j :: 0 <= j < |ops| ==> Answered(r, n, ops, outs, j)
    ensures RefRun(r, ops', outs') == RefStep(RefRun(r, ops, outs), op, a)
    ensures forall j :: 0 <= j < |ops'| ==> Answered(r, n, ops', outs', j)
  {
    assert ops'[..|ops|] == ops && outs'[..|ops|] == outs;
    forall j | 0 <= j < |ops|
      ensures Answered(r, n, ops', outs', j)
    {
      assert Answered(r, n, ops, outs, j);
      assert ops'[..j] == ops[..j] && outs'[..j] == outs[..j];
    }
  }

  /** Every state is one from which a run may start, as long as the buffers in use have labels. */
  lemma SomeReference(v: View) returns (r: Ref)
    requires Coherent(v) && forall b :: 0 <= b < |v.bufs| && v.bufs[b].count > 0 ==> v.dev[b] != 0
    ensures Shows(v, r) && forall d, k :: (d, k) in r.blocks
  {
    r := Ref(imap key: (int, int) | true :: Logical(v, key.0, key.1),
             map b | 0 <= b < |v.bufs| && v.bufs[b].count > 0 :: Hold(v.dev[b], v.block[b], v.bufs[b].count));
  }

  function InitialLinks(n: nat): Links
    requires n >= 2
  {
    Links(seq(n, _ => 0), seq(n, _ => 0), seq(n, _ => NULL), seq(n, _ => NULL),
          seq(n, i => if i + 1 == n then 0 else i + 1), seq(n, i => if i == 0 then n - 1 else i - 1), seq(NR_HASH, _ => NULL), 0)
  }

  lemma InitialLinked(n: nat, free: seq<int>, chains: seq<seq<int>>)
    requires n >= 2 && |free| == n && (forall i :: 0 <= i < n ==> free[i] == i) && |chains| == NR_HASH && forall h :: 0 <= h < NR_HASH ==> chains[h] == []
    ensures Linked(InitialLinks(n), n, free, chains) && forall b :: 0 <= b < n ==> b in free
  {
    var l := InitialLinks(n);
    forall k | 0 <= k < n
      ensures RingAt(free, l.nextFree, l.prevFree, k)
    {
    }
    forall b | 0 <= b < n
      ensures b in free
    {
      assert free[b] == b;
    }
  }

  /** The label of a buffer off the lists is nobody's concern. */
  lemma LabelOff(l: Links, n: int, free: seq<int>, chains: seq<seq<int>>, b: int, dev: int, block: int)
    requires Linked(l, n, free, chains) && 0 <= b < n && b !in free && 0 <= dev < 0x1_0000 && 0 <= block < 0x1_0000
    ensures Linked(l.(dev := l.dev[b := dev], block := l.block[b := block]), n, free, chains)
  {
    var l' := l.(dev := l.dev[b := dev], block := l.block[b := block]);
    forall x | x in free
      ensures Placed(l', n, chains, x)
    {
      assert Placed(l, n, chains, x);
    }
  }

  /** b is entry i of the free list and the buffers before it are all in use. */
  ghost predicate OldestUnused(free: seq<int>, bufs: seq<Buf>, i: nat, b: int) {
    && i < |free| && free[i] == b && 0 <= b < |bufs| && bufs[b].count == 0
    && forall j :: 0 <= j < i ==> 0 <= free[j] < |bufs| && bufs[free[j]].count != 0
  }

  /** Entry i, which is b, goes to the end of the list. */
  ghost predicate Moved(free: seq<int>, free': seq<int>, i: nat, b: int) {
    i < |free| && free' == Without(free, i) + [b]
  }

  lemma MoreThanOne(c: seq<int>, n: int)
    requires n >= 2 && forall x :: 0 <= x < n ==> x in c
    ensures |c| >= 2
  {
    assert 0 in c && 1 in c;
  }

  /** A count takes no part in coherence. */
  lemma CountOnly(v: View, b: int, c: int)
    requires Coherent(v) && 0 <= b < |v.bufs|
    ensures Coherent(SetBuf(v, b, v.bufs[b].(count := c))) && SameLogical(v, SetBuf(v, b, v.bufs[b].(count := c)))
  {
    var v' := SetBuf(v, b, v.bufs[b].(count := c));
    forall x, d, k
      ensures Labelled(v', x, d, k) <==> Labelled(v, x, d, k)
      ensures Current(v', x, d, k) <==> Current(v, x, d, k)
    {
    }
    forall x | 0 <= x < |v.bufs|
      ensures Clean(v', x)
    {
      assert Clean(v, x);
    }
    forall d, k
      ensures Logical(v', d, k) == Logical(v, d, k)
    {
      if x :| Current(v, x, d, k) {
        LogicalOf(v, x, d, k);
        LogicalOf(v', x, d, k);
      }
    }
  }
}
