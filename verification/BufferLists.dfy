/** Doubly linked lists as fs/buffer.c uses them, over buffer numbers: the circular free list
    and the hash chains that end in NULL.
 */
module BufferLists {

  const NULL := -1

  predicate Distinct(c: seq<int>) { forall j, k :: 0 <= j < k < |c| ==> c[j] != c[k] }

  predicate InRange(c: seq<int>, n: int) { forall k :: 0 <= k < |c| ==> 0 <= c[k] < n }

  function Without(c: seq<int>, i: nat): (r: seq<int>)
    requires i < |c|
    ensures |r| == |c| - 1 && forall k :: 0 <= k < |r| ==> r[k] == c[if k < i then k else k + 1]
  {
    c[..i] + c[i + 1..]
  }

  lemma WithoutKeeps(c: seq<int>, i: nat, n: int)
    requires Distinct(c) && InRange(c, n) && i < |c|
    ensures Distinct(Without(c, i)) && InRange(Without(c, i), n)
    ensures forall x :: x in Without(c, i) <==> x in c && x != c[i]
  {
    var r := Without(c, i);
    forall x
      ensures x in r <==> x in c && x != c[i]
    {
      if x in c && x != c[i] {
        var k :| 0 <= k < |c| && c[k] == x;
        assert r[if k < i then k else k - 1] == x;
      }
    }
  }

  // ---------------------------------------------------------------- the ring

  function Succ(k: int, n: int): int { if k + 1 == n then 0 else k + 1 }

  predicate RingAt(c: seq<int>, nx: seq<int>, pv: seq<int>, k: int)
    requires 0 <= k < |c| && InRange(c, |nx|) && |nx| == |pv|
  {
    nx[c[k]] == c[Succ(k, |c|)] && pv[c[Succ(k, |c|)]] == c[k]
  }

  ghost predicate Ring(c: seq<int>, nx: seq<int>, pv: seq<int>) {
    && Distinct(c) && |nx| == |pv| && InRange(c, |nx|)
    && forall k {:trigger RingAt(c, nx, pv, k)} :: 0 <= k < |c| ==> RingAt(c, nx, pv, k)
  }

  function Pred(k: int, n: int): int { if k == 0 then n - 1 else k - 1 }

  /** The neighbours of entry i. */
  lemma RingNeighbours(c: seq<int>, nx: seq<int>, pv: seq<int>, i: nat)
    requires Ring(c, nx, pv) && i < |c|
    ensures nx[c[i]] == c[Succ(i, |c|)] && pv[c[i]] == c[Pred(i, |c|)]
  {
    assert RingAt(c, nx, pv, i) && RingAt(c, nx, pv, Pred(i, |c|));
  }

  lemma RingRemove(c: seq<int>, nx: seq<int>, pv: seq<int>, i: nat)
    requires Ring(c, nx, pv) && i < |c| && |c| >= 2
    ensures 0 <= pv[c[i]] < |nx| && 0 <= nx[c[i]] < |nx|
    ensures Ring(Without(c, i), nx[pv[c[i]] := nx[c[i]]], pv[nx[c[i]] := pv[c[i]]])
  {
    RingNeighbours(c, nx, pv, i);
    WithoutKeeps(c, i, |nx|);
    var r, nx', pv' := Without(c, i), nx[pv[c[i]] := nx[c[i]]], pv[nx[c[i]] := pv[c[i]]];
    forall k' | 0 <= k' < |r|
      ensures RingAt(r, nx', pv', k')
    {
      var k := if k' < i then k' else k' + 1;
      assert RingAt(c, nx, pv, k);
      if Succ(k, |c|) != i {
        assert c[k] != c[Pred(i, |c|)] && c[Succ(k, |c|)] != c[Succ(i, |c|)];
      }
    }
  }

  /** At the end, that is in front of the first entry. */
  lemma RingAppend(c: seq<int>, nx: seq<int>, pv: seq<int>, b: int)
    requires Ring(c, nx, pv) && c != [] && 0 <= b < |nx| && b !in c
    ensures 0 <= pv[c[0]] < |nx|
    ensures Ring(c + [b], nx[b := c[0]][pv[c[0]] := b], pv[b := pv[c[0]]][c[0] := b])
  {
    RingNeighbours(c, nx, pv, 0);
    var n := |c|;
    var d, nx', pv' := c + [b], nx[b := c[0]][pv[c[0]] := b], pv[b := pv[c[0]]][c[0] := b];
    forall k | 0 <= k < |d|
      ensures RingAt(d, nx', pv', k)
    {
      if k < n {
        assert RingAt(c, nx, pv, k);
        if k + 1 < n {
          assert c[k] != c[n - 1] && c[k + 1] != c[0];
        }
      }
    }
  }

  // ---------------------------------------------------------------- the chains

  predicate ChainAt(c: seq<int>, nx: seq<int>, pv: seq<int>, k: int)
    requires 0 <= k < |c| && InRange(c, |nx|) && |nx| == |pv|
  {
    && nx[c[k]] == (if k + 1 < |c| then c[k + 1] else NULL)
    && pv[c[k]] == (if k > 0 then c[k - 1] else NULL)
  }

  ghost predicate Chain(c: seq<int>, nx: seq<int>, pv: seq<int>) {
    && Distinct(c) && |nx| == |pv| && InRange(c, |nx|)
    && forall k {:trigger ChainAt(c, nx, pv, k)} :: 0 <= k < |c| ==> ChainAt(c, nx, pv, k)
  }

  function Head(c: seq<int>): int { if c == [] then NULL else c[0] }

  /** The forward links once b is skipped: its predecessor, if it has one, points to its successor. */
  function Skip(nx: seq<int>, pv: seq<int>, b: int): seq<int>
    requires 0 <= b < |nx| && |pv| == |nx| && (pv[b] != NULL ==> 0 <= pv[b] < |nx|)
  {
    if pv[b] != NULL then nx[pv[b] := nx[b]] else nx
  }

  lemma ChainRemove(c: seq<int>, nx: seq<int>, pv: seq<int>, i: nat)
    requires Chain(c, nx, pv) && i < |c|
    ensures var b := c[i]; (pv[b] != NULL ==> 0 <= pv[b] < |nx|) && (nx[b] != NULL ==> 0 <= nx[b] < |nx|)
    ensures Chain(Without(c, i), Skip(nx, pv, c[i]), Skip(pv, nx, c[i]))
    ensures Head(Without(c, i)) == if i == 0 then nx[c[i]] else Head(c)
  {
    assert ChainAt(c, nx, pv, i);
    WithoutKeeps(c, i, |nx|);
    var r, nx', pv' := Without(c, i), Skip(nx, pv, c[i]), Skip(pv, nx, c[i]);
    forall k' | 0 <= k' < |r|
      ensures ChainAt(r, nx', pv', k')
    {
      var k := if k' < i then k' else k' + 1;
      assert ChainAt(c, nx, pv, k);
    }
  }

  lemma ChainPush(c: seq<int>, nx: seq<int>, pv: seq<int>, b: int)
    requires Chain(c, nx, pv) && 0 <= b < |nx| && b !in c
    ensures Chain([b] + c, nx[b := Head(c)], if c == [] then pv[b := NULL] else pv[b := NULL][c[0] := b])
  {
    var d, nx', pv' := [b] + c, nx[b := Head(c)], if c == [] then pv[b := NULL] else pv[b := NULL][c[0] := b];
    forall k | 0 <= k < |d|
      ensures ChainAt(d, nx', pv', k)
    {
      if k > 0 {
        assert ChainAt(c, nx, pv, k - 1);
      }
    }
  }

  lemma ChainFrame(c: seq<int>, nx: seq<int>, pv: seq<int>, nx': seq<int>, pv': seq<int>)
    requires Chain(c, nx, pv) && |nx'| == |nx| == |pv'|
    requires forall k :: 0 <= k < |c| ==> nx'[c[k]] == nx[c[k]] && pv'[c[k]] == pv[c[k]]
    ensures Chain(c, nx', pv')
  {
    forall k | 0 <= k < |c|
      ensures ChainAt(c, nx', pv', k)
    {
      assert ChainAt(c, nx, pv, k);
    }
  }

  /** Every neighbour recorded by a member is a member or NULL. */
  lemma ChainNeighbours(c: seq<int>, nx: seq<int>, pv: seq<int>, i: nat)
    requires Chain(c, nx, pv) && i < |c|
    ensures (nx[c[i]] == NULL || nx[c[i]] in c) && (pv[c[i]] == NULL || pv[c[i]] in c)
  {
    assert ChainAt(c, nx, pv, i);
  }
}
