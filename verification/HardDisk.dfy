/** The linked request list of kernel/hd.c, changed in place.  Pointers into request[] are
    slot numbers, -1 stands for NULL.  Interrupts come between calls, not inside them.
 */
module HardDisk {
  import opened Elevator

  const NR_REQUEST: nat := 32
  const NULL := -1

  datatype Slot = Slot(hd: int, nsector: int, sector: int, head: int, cyl: int, cmd: int, bh: int, next: int)

  function AsRequest(i: int, s: Slot): Request { Request(i, s.hd, s.cyl, s.head, s.sector) }

  ghost function QueueOf(order: seq<int>, table: seq<Slot>): (q: seq<Request>)
    requires forall k :: 0 <= k < |order| ==> 0 <= order[k] < |table|
    ensures |q| == |order| && forall k :: 0 <= k < |order| ==> q[k] == AsRequest(order[k], table[order[k]])
  {
    seq(|order|, k requires 0 <= k < |order| => AsRequest(order[k], table[order[k]]))
  }

  ghost predicate LinkAt(order: seq<int>, table: seq<Slot>, k: int)
    requires 0 <= k < |order| && 0 <= order[k] < |table|
  {
    table[order[k]].next == if k + 1 < |order| then order[k + 1] else NULL
  }

  /** Following `next` from first visits exactly the slots of order, once each. */
  ghost predicate Linked(order: seq<int>, table: seq<Slot>, first: int) {
    && |table| == NR_REQUEST
    && (forall k :: 0 <= k < |order| ==> 0 <= order[k] < NR_REQUEST)
    && (forall j, k :: 0 <= j < k < |order| ==> order[j] != order[k])
    && first == (if order == [] then NULL else order[0])
    && (forall k {:trigger LinkAt(order, table, k)} :: 0 <= k < |order| ==> LinkAt(order, table, k))
  }

  /** In other words: the first request is this_request, each slot names the next, the last names none. */
  lemma LinkedLaw(order: seq<int>, table: seq<Slot>, first: int)
    requires Linked(order, table, first)
    ensures (order == [] <==> first == NULL) && (order != [] ==> order[0] == first && table[order[|order| - 1]].next == NULL)
    ensures forall k {:trigger order[k]} :: 0 <= k < |order| - 1 ==> NextIs(table, order[k], order[k + 1])
  {
    forall k {:trigger order[k]} | 0 <= k < |order| - 1
      ensures NextIs(table, order[k], order[k + 1])
    {
      assert LinkAt(order, table, k);
    }
    if order != [] {
      assert LinkAt(order, table, |order| - 1);
    }
  }

  predicate NextIs(table: seq<Slot>, i: int, j: int) { 0 <= i < |table| && table[i].next == j }

  function InsertSlot(order: seq<int>, p: nat, i: int): seq<int>
    requires p <= |order|
  {
    order[..p] + [i] + order[p..]
  }

  ghost predicate LinkedBehind(order: seq<int>, table: seq<Slot>, table': seq<Slot>, p: nat, i: int) {
    && 0 < p <= |order| && |table| == |table'| == NR_REQUEST && 0 <= i < NR_REQUEST && i !in order && 0 <= order[p - 1] < NR_REQUEST
    && table' == table[i := table[i].(next := table[order[p - 1]].next)][order[p - 1] := table[order[p - 1]].(next := i)]
  }

  lemma InsertAt(order: seq<int>, p: nat, i: int)
    requires p <= |order|
    ensures |InsertSlot(order, p, i)| == |order| + 1
    ensures forall k :: 0 <= k < p ==> InsertSlot(order, p, i)[k] == order[k]
    ensures InsertSlot(order, p, i)[p] == i
    ensures forall k :: p < k <= |order| ==> InsertSlot(order, p, i)[k] == order[k - 1]
  {
  }

  lemma InsertDistinct(order: seq<int>, p: nat, i: int)
    requires p <= |order| && i !in order
    requires forall j, k :: 0 <= j < k < |order| ==> order[j] != order[k]
    ensures forall j, k :: 0 <= j < k < |InsertSlot(order, p, i)| ==> InsertSlot(order, p, i)[j] != InsertSlot(order, p, i)[k]
  {
    InsertAt(order, p, i);
  }

  /** Linking slot i behind order[p-1] inserts it at position p. */
  lemma LinkedInsert(order: seq<int>, table: seq<Slot>, table': seq<Slot>, first: int, p: nat, i: int)
    requires Linked(order, table, first) && LinkedBehind(order, table, table', p, i)
    ensures Linked(InsertSlot(order, p, i), table', first)
  {
    var order' := InsertSlot(order, p, i);
    InsertAt(order, p, i);
    InsertDistinct(order, p, i);
    forall k | 0 <= k < |order'|
      ensures 0 <= order'[k] < NR_REQUEST && LinkAt(order', table', k)
    {
      assert LinkAt(order, table, p - 1);
      if k < p {
        assert LinkAt(order, table, k);
      } else if k > p {
        assert LinkAt(order, table, k - 1);
      }
    }
  }

  lemma QueueInsert(order: seq<int>, table: seq<Slot>, table': seq<Slot>, first: int, p: nat, i: int)
    requires Linked(order, table, first) && LinkedBehind(order, table, table', p, i)
    requires Linked(InsertSlot(order, p, i), table', first)
    ensures QueueOf(InsertSlot(order, p, i), table') == Insert(QueueOf(order, table), p, AsRequest(i, table[i]))
  {
    InsertAt(order, p, i);
    var a, b := QueueOf(InsertSlot(order, p, i), table'), Insert(QueueOf(order, table), p, AsRequest(i, table[i]));
    forall k | 0 <= k < |a|
      ensures a[k] == b[k]
    {
    }
  }

  /** Slots off the list may change freely, and list slots may change anything but their links. */
  lemma LinkedFrame(order: seq<int>, table: seq<Slot>, table': seq<Slot>, first: int)
    requires Linked(order, table, first) && |table'| == NR_REQUEST
    requires forall k :: 0 <= k < |order| ==> table'[order[k]].next == table[order[k]].next
    ensures Linked(order, table', first)
  {
    forall k | 0 <= k < |order|
      ensures LinkAt(order, table', k)
    {
      assert LinkAt(order, table, k);
    }
  }

  lemma LinkedTail(order: seq<int>, table: seq<Slot>, first: int)
    requires Linked(order, table, first) && order != []
    ensures Linked(order[1..], table, table[first].next)
    ensures QueueOf(order[1..], table) == QueueOf(order, table)[1..]
    ensures first !in order[1..] && forall i :: i in order <==> i == first || i in order[1..]
  {
    assert order == [first] + order[1..];
    assert LinkAt(order, table, 0);
    forall k | 0 <= k < |order[1..]|
      ensures LinkAt(order[1..], table, k)
    {
      assert LinkAt(order, table, k + 1);
    }
  }

  predicate SameButLink(a: Slot, b: Slot) {
    a == b.(next := a.next)
  }

  class RequestQueue {
    const request: array<Slot>
    var thisRequest: int
    var sorting: bool
    /** do_hd != NULL: the controller is at work and will interrupt. */
    var active: bool
    ghost var order: seq<int>

    /** Slots in use are those on the list, and the controller works exactly while the list is not empty. */
    ghost predicate Valid()
      reads this, request
    {
      && Linked(order, request[..], thisRequest)
      && (forall i :: 0 <= i < NR_REQUEST ==> (request[i].hd >= 0 <==> i in order))
      && (forall i :: 0 <= i < NR_REQUEST && i in order ==> 1 <= request[i].nsector <= 2)
      && (active <==> order != []) && !sorting
    }

    ghost function Queue(): seq<Request>
      reads this, request
      requires Valid()
    {
      QueueOf(order, request[..])
    }

    /** hd_init */
    constructor ()
      ensures Valid() && Queue() == [] && fresh(request)
    {
      request := new Slot[NR_REQUEST](_ => Slot(-1, 0, 0, 0, 0, 0, 0, NULL));
      thisRequest := NULL;
      sorting := false;
      active := false;
      order := [];
    }

    /** do_request, as far as the list is concerned. */
    method DoRequest()
      modifies this`active
      ensures active == if sorting then old(active) else thisRequest != NULL
    {
      if sorting {
        return;
      }
      active := thisRequest != NULL;
    }

    /** add_request on a slot that rw_abs_hd has just filled. */
    method AddRequest(req: int)
      requires Linked(order, request[..], thisRequest)
      requires 0 <= req < NR_REQUEST && req !in order && request[req].next == NULL
      requires request[req].hd >= 0 && request[req].nsector == 2
      requires forall i :: 0 <= i < NR_REQUEST && i != req ==> (request[i].hd >= 0 <==> i in order)
      requires forall i :: 0 <= i < NR_REQUEST && i in order ==> 1 <= request[i].nsector <= 2
      requires (active <==> order != []) && !sorting
      modifies this, request
      ensures Valid()
      ensures Queue() == Add(old(QueueOf(order, request[..])), AsRequest(req, old(request[req])))
      ensures forall i :: 0 <= i < NR_REQUEST ==> SameButLink(request[i], old(request[i]))
    {
      sorting := true;
      Enqueue(req);
      sorting := false;
      if !active {
        DoRequest();
      }
    }

    /** The list surgery of add_request. */
    method Enqueue(req: int)
      requires Linked(order, request[..], thisRequest)
      requires 0 <= req < NR_REQUEST && req !in order && request[req].next == NULL
      modifies this`order, this`thisRequest, request
      ensures Linked(order, request[..], thisRequest) && order != []
      ensures forall i :: i in order <==> i in old(order) || i == req
      ensures QueueOf(order, request[..]) == Add(old(QueueOf(order, request[..])), AsRequest(req, old(request[req])))
      ensures forall i :: 0 <= i < NR_REQUEST ==> SameButLink(request[i], old(request[i]))
    {
      var tmp := thisRequest;
      if tmp == NULL {
        thisRequest := req;
        order := [req];
        assert LinkAt(order, request[..], 0);
      } else {
        assert LinkAt(order, request[..], 0);
        if request[tmp].next == NULL {
          LinkBehind(tmp, req, 0);
        } else {
          ghost var j;
          tmp, j := FindGap(req);
          LinkBehind(tmp, req, j);
        }
      }
    }

    /** The search loop of add_request. */
    method FindGap(req: int) returns (tmp: int, ghost j: nat)
      requires Linked(order, request[..], thisRequest) && |order| >= 2 && 0 <= req < NR_REQUEST
      ensures j < |order| && tmp == order[j]
      ensures j == Gap(QueueOf(order, request[..]), AsRequest(req, request[req]), 1)
    {
      ghost var q, r := QueueOf(order, request[..]), AsRequest(req, request[req]);
      assert LinkAt(order, request[..], 0) && LinkAt(order, request[..], 1);
      tmp := request[thisRequest].next;
      j := 1;
      while request[tmp].next != NULL && !Fits(AsRequest(tmp, request[tmp]), AsRequest(req, request[req]), AsRequest(request[tmp].next, request[request[tmp].next]))
        invariant 1 <= j < |order| && tmp == order[j] && LinkAt(order, request[..], j)
        invariant Gap(q, r, 1) == Gap(q, r, j)
        decreases |order| - j
      {
        tmp := request[tmp].next;
        j := j + 1;
        assert LinkAt(order, request[..], j);
      }
    }

    /** Put req on the list behind tmp, its entry number j. */
    method LinkBehind(tmp: int, req: int, ghost j: nat)
      requires Linked(order, request[..], thisRequest)
      requires 0 <= req < NR_REQUEST && req !in order && j < |order| && tmp == order[j]
      modifies this`order, request
      ensures Linked(order, request[..], thisRequest) && order != []
      ensures forall i :: i in order <==> i in old(order) || i == req
      ensures QueueOf(order, request[..]) == Insert(old(QueueOf(order, request[..])), j + 1, AsRequest(req, old(request[req])))
      ensures forall i :: 0 <= i < NR_REQUEST ==> SameButLink(request[i], old(request[i]))
    {
      ghost var table := request[..];
      request[req] := request[req].(next := request[tmp].next);
      request[tmp] := request[tmp].(next := req);
      assert LinkedBehind(order, table, request[..], j + 1, req);
      LinkedInsert(order, table, request[..], thisRequest, j + 1, req);
      QueueInsert(order, table, request[..], thisRequest, j + 1, req);
      InsertAt(order, j + 1, req);
      assert order == order[..j + 1] + order[j + 1..];
      order := InsertSlot(order, j + 1, req);
    }

    /** rw_abs_hd up to the wait; false when all slots are taken and the caller must sleep. */
    method RwAbsHd(cmd: int, nr: nat, sec: nat, head: nat, cyl: nat, bh: int) returns (queued: bool, slot: int)
      requires Valid()
      modifies this, request
      ensures Valid()
      ensures queued <==> exists i :: 0 <= i < NR_REQUEST && i !in old(order)
      ensures !queued ==> Queue() == old(Queue())
      ensures queued ==> 0 <= slot < NR_REQUEST && slot !in old(order) && Queue() == Add(old(Queue()), Request(slot, nr, cyl, head, sec))
      ensures queued ==> var r := request[slot]; r.hd == nr && r.sector == sec && r.head == head && r.cyl == cyl && r.cmd == cmd && r.bh == bh && r.nsector == 2
      ensures queued ==> forall i :: 0 <= i < slot ==> old(request[i]).hd >= 0
      ensures forall i :: 0 <= i < NR_REQUEST && (queued ==> i != slot) ==> SameButLink(request[i], old(request[i]))
    {
      slot := 0;
      while slot < NR_REQUEST && request[slot].hd >= 0
        invariant 0 <= slot <= NR_REQUEST
        invariant forall i :: 0 <= i < slot ==> request[i].hd >= 0
      {
        slot := slot + 1;
      }
      if slot == NR_REQUEST {
        return false, slot;
      }
      assert slot !in order;
      ghost var q := Queue();
      ghost var table := request[..];
      request[slot] := Slot(nr, 2, sec, head, cyl, cmd, bh, NULL);
      LinkedFrame(order, table, request[..], thisRequest);
      assert QueueOf(order, request[..]) == q;
      AddRequest(slot);
      queued := true;
    }

    /** The success path of read_intr and write_intr: two sectors per request, then the next request. */
    method Interrupt() returns (completed: bool)
      requires Valid() && order != []
      modifies this, request
      ensures Valid()
      ensures completed <==> old(request[thisRequest].nsector) == 1
      ensures completed ==> Queue() == old(Queue())[1..]
      ensures completed ==> request[old(thisRequest)].hd == -1 && thisRequest == old(request[thisRequest].next)
      ensures forall i :: 0 <= i < NR_REQUEST && i != old(thisRequest) ==> request[i] == old(request[i])
      ensures !completed ==> Queue() == old(Queue()) && request[thisRequest].nsector == old(request[thisRequest].nsector) - 1
    {
      ghost var table := request[..];
      ghost var q := Queue();
      var cur := thisRequest;
      request[cur] := request[cur].(nsector := request[cur].nsector - 1);
      LinkedFrame(order, table, request[..], thisRequest);
      assert QueueOf(order, request[..]) == q;
      if request[cur].nsector != 0 {
        return false;
      }
      Finish();
      completed := true;
    }

    /** Free the current slot, move on to the next request and start it. */
    method Finish()
      requires Linked(order, request[..], thisRequest) && order != [] && !sorting
      requires forall i :: 0 <= i < NR_REQUEST ==> (request[i].hd >= 0 <==> i in order)
      requires forall i :: 0 <= i < NR_REQUEST && i in order[1..] ==> 1 <= request[i].nsector <= 2
      modifies this, request
      ensures Valid() && Queue() == old(QueueOf(order, request[..]))[1..]
      ensures request[old(thisRequest)].hd == -1 && thisRequest == old(request[thisRequest].next)
      ensures forall i :: 0 <= i < NR_REQUEST && i != old(thisRequest) ==> request[i] == old(request[i])
    {
      var cur := thisRequest;
      LinkedTail(order, request[..], cur);
      ghost var table := request[..];
      ghost var rest := order[1..];
      order := rest;
      thisRequest := request[cur].next;
      request[cur] := request[cur].(hd := -1);
      LinkedFrame(rest, table, request[..], thisRequest);
      assert QueueOf(rest, request[..]) == QueueOf(rest, table);
      DoRequest();
    }
  }
}
