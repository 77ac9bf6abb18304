/** The queues of include/linux/tty.h and the input side of kernel/tty_io.c. */
module Ttys {

  import opened Bytes
  import opened LineDiscipline

  function Distance(head: int, tail: int): int { if tail <= head then head - tail else head - tail + 1024 }

  /** INC and DEC. */
  function Inc(a: int): (r: int)
    requires 0 <= a < 1024
    ensures r == if a == 1023 then 0 else a + 1
  {
    (a + 1) % 1024
  }

  function Dec(a: int): (r: int)
    requires 0 <= a < 1024
    ensures r == if a == 0 then 1023 else a - 1
  {
    (a - 1) % 1024
  }

  /** i cells after tail, around the end. */
  function After(tail: int, i: int): int { if tail + i < 1024 then tail + i else tail + i - 1024 }

  /** struct tty_queue: a ring of 1024 cells, one of them always unused. */
  class TtyQueue {
    const buf: array<Byte>
    var head: int
    var tail: int
    var data: int
    /** From the oldest character to the newest. */
    ghost var contents: seq<Byte>

    ghost predicate Valid()
      reads this, buf
    {
      buf.Length == 1024 && 0 <= head < 1024 && 0 <= tail < 1024 && |contents| == Distance(head, tail)
      && forall i {:trigger contents[i]} :: 0 <= i < |contents| ==> contents[i] == buf[After(tail, i)]
    }

    constructor ()
      ensures Valid() && contents == [] && data == 0 && fresh(buf)
    {
      buf := new Byte[1024];
      head, tail, data, contents := 0, 0, 0, [];
    }

    function Chars(): (r: int)
      requires Valid()
      reads this, buf
      ensures r == |contents|
    {
      (head - tail) % 1024
    }

    function Left(): (r: int)
      requires Valid()
      reads this, buf
      ensures r == 1023 - |contents|
    {
      (tail - head - 1) % 1024
    }

    predicate Empty()
      requires Valid()
      reads this, buf
      ensures Empty() <==> contents == []
    {
      head == tail
    }

    predicate Full()
      requires Valid()
      reads this, buf
      ensures Full() <==> |contents| == 1023
    {
      Left() == 0
    }

    function Last(): (c: Byte)
      requires Valid() && !Empty()
      reads this, buf
      ensures c == contents[|contents| - 1]
    {
      buf[Dec(head)]
    }

    /** PUTCH has no check of its own: on a full queue it loses everything. */
    method Put(c: Byte)
      requires Valid()
      modifies this`head, this`contents, buf
      ensures Valid() && contents == if old(Full()) then [] else old(contents) + [c]
    {
      buf[head] := c;
      head := Inc(head);
      contents := if |contents| == 1023 then [] else contents + [c];
    }

    /** GETCH, which its callers use on a queue that is not empty. */
    method Get() returns (c: Byte)
      requires Valid() && !Empty()
      modifies this`tail, this`contents
      ensures Valid() && old(contents) == [c] + contents
    {
      c := buf[tail];
      tail := Inc(tail);
      contents := contents[1..];
      assert forall i {:trigger contents[i]} :: 0 <= i < |contents| ==> contents[i] == old(contents)[i + 1];
    }

    /** DEC(head). */
    method DropLast()
      requires Valid() && !Empty()
      modifies this`head, this`contents
      ensures Valid() && contents == old(contents)[..|old(contents)| - 1]
    {
      head := Dec(head);
      contents := contents[..|contents| - 1];
    }
  }

  /** What happens while a reader waits. */
  datatype Event = Typed(bytes: seq<Byte>) | Signal

  /** Failed is -1, Interrupted is -EINTR; Waiting means that the events ran out first. */
  datatype Outcome = Failed | Interrupted | Read(bytes: seq<Byte>, eof: bool) | Waiting(bytes: seq<Byte>)

  /** struct tty_struct, with fixed control characters.  The ghost fields remember every character
      received, every character taken by readers, and whether an erase ever came too late. */
  class Tty {
    const mode: Mode
    const readQ: TtyQueue
    const secondary: TtyQueue
    var stopped: bool
    var intrs: nat
    ghost var typed: seq<Byte>
    ghost var taken: seq<Byte>
    ghost var exact: bool

    ghost predicate Apart()
      reads this, readQ, secondary, readQ.buf, secondary.buf
    {
      readQ != secondary && readQ.buf != secondary.buf && readQ.Valid() && secondary.Valid()
    }

    ghost function Cooked(): State
      requires Apart()
      reads this, readQ, secondary, readQ.buf, secondary.buf
    {
      State(secondary.contents, stopped, intrs)
    }

    /** data counts the terminators queued, and every character received is accounted for. */
    ghost predicate Valid()
      reads this, readQ, secondary, readQ.buf, secondary.buf
    {
      && Apart()
      && secondary.data == Count(mode, secondary.contents)
      && (exact ==> CookAll(mode, Blank, typed) == CookAll(mode, Behind(taken, Cooked()), readQ.contents))
    }

    constructor (m: Mode)
      ensures Valid() && mode == m && exact && typed == [] && taken == [] && Cooked() == Blank && readQ.contents == []
      ensures fresh(readQ) && fresh(secondary) && fresh(readQ.buf) && fresh(secondary.buf)
    {
      mode := m;
      var r := new TtyQueue();
      var s := new TtyQueue();
      readQ, secondary := r, s;
      stopped, intrs, typed, taken, exact := false, 0, [], [], true;
    }

    /** copy_to_cooked: the keys in the read queue edit the cooked queue, until it is full. */
    method CopyToCooked()
      requires Valid()
      modifies this`stopped, this`intrs, this`exact, readQ, secondary, readQ.buf, secondary.buf
      ensures Valid() && (readQ.Empty() || secondary.Full())
      ensures |readQ.contents| <= |old(readQ.contents)| && (Aligned(mode, taken) ==> exact == old(exact))
      ensures var k := |old(readQ.contents)| - |readQ.contents|;
              readQ.contents == old(readQ.contents)[k..] && Cooked() == CookAll(mode, old(Cooked()), old(readQ.contents)[..k])
    {
      ghost var keys, k := readQ.contents, 0;
      while !readQ.Empty() && !secondary.Full()
        invariant Valid() && 0 <= k <= |keys| && readQ.contents == keys[k..]
        invariant Cooked() == CookAll(mode, old(Cooked()), keys[..k]) && (Aligned(mode, taken) ==> exact == old(exact))
        decreases |readQ.contents|
      {
        CookOneMore(mode, old(Cooked()), keys[..k], keys[k]);
        assert keys[..k + 1] == keys[..k] + [keys[k]];
        CookOne();
        k := k + 1;
      }
    }

    /** The body of the loop of copy_to_cooked. */
    method CookOne()
      requires Valid() && !readQ.Empty() && !secondary.Full()
      modifies this`stopped, this`intrs, this`exact, readQ, secondary, readQ.buf, secondary.buf
      ensures Valid() && readQ.contents == old(readQ.contents)[1..]
      ensures Cooked() == Cook(mode, old(Cooked()), old(readQ.contents)[0])
      ensures exact == (old(exact) && !TooLate(mode, taken, old(secondary.contents), old(readQ.contents)[0]))
    {
      ghost var keys, before := readQ.contents, Cooked();
      if exact && !TooLate(mode, taken, before.q, keys[0]) {
        KeyConserves(mode, typed, taken, before, keys);
      }
      exact := exact && !TooLate(mode, taken, before.q, keys[0]);
      CookCounts(mode, before, keys[0]);
      var c := readQ.Get();
      Edit(c);
    }

    method Edit(received: Byte)
      requires Apart() && !secondary.Full()
      modifies this`stopped, this`intrs, secondary, secondary.buf
      ensures Apart() && Cooked() == Cook(mode, old(Cooked()), received)
      ensures secondary.data == old(secondary.data) + if EndsLine(mode, received) then 1 else 0
    {
      ghost var key := KeyOf(mode, received);
      var c := received;
      if c == CR {
        if mode.icrnl {
          c := NL;
        } else if mode.igncr {
          return;
        }
      } else if c == NL && mode.inlcr {
        c := CR;
      }
      if mode.canon {
        if Is(c, mode.erase) {
          assert key == Erase;
          EraseLast();
          return;
        }
        if Is(c, mode.stop) {
          assert key == Stop;
          stopped := true;
          return;
        }
        if Is(c, mode.start) {
          assert key == Start;
          stopped := false;
          return;
        }
      }
      if !mode.isig && Is(c, mode.intr) {
        assert key == Interrupt;
        intrs := intrs + 1;
        return;
      }
      assert key == Char(c);
      Accept(c);
    }

    /** Erase takes nothing from an empty queue, and no terminator. */
    method EraseLast()
      requires Apart()
      modifies secondary
      ensures Apart() && Cooked() == Apply(mode, old(Cooked()), Erase) && secondary.data == old(secondary.data)
    {
      if secondary.Empty() {
        return;
      }
      var last := secondary.Last();
      if last == NL || Is(last, mode.eof) {
        return;
      }
      secondary.DropLast();
    }

    method Accept(c: Byte)
      requires Apart() && !secondary.Full()
      modifies secondary, secondary.buf
      ensures Apart() && Cooked() == Apply(mode, old(Cooked()), Char(c))
      ensures secondary.data == old(secondary.data) + if Ends(mode, c) then 1 else 0
    {
      if c == NL || Is(c, mode.eof) {
        secondary.data := secondary.data + 1;
      }
      secondary.Put(c);
    }

    /** A character arrives; with no room in the read queue the driver drops it. */
    method Receive(c: Byte)
      requires Valid()
      modifies this, readQ, secondary, readQ.buf, secondary.buf
      ensures Valid() && taken == old(taken) && (Aligned(mode, taken) ==> exact == old(exact))
      ensures typed == if |old(readQ.contents)| < 1023 then old(typed) + [c] else old(typed)
      ensures |old(readQ.contents)| == 1023 ==> readQ.contents == old(readQ.contents) && Cooked() == old(Cooked())
      ensures |old(readQ.contents)| < 1023 ==>
        var keys := old(readQ.contents) + [c]; var k := |keys| - |readQ.contents|;
        && (readQ.contents == [] || |secondary.contents| == 1023)
        && 0 <= k && readQ.contents == keys[k..] && Cooked() == CookAll(mode, old(Cooked()), keys[..k])
    {
      if !readQ.Full() {
        PutRaw(c);
        CopyToCooked();
      }
    }

    method PutRaw(c: Byte)
      requires Valid() && !readQ.Full()
      modifies this`typed, readQ, readQ.buf
      ensures Valid() && typed == old(typed) + [c] && readQ.contents == old(readQ.contents) + [c] && Cooked() == old(Cooked())
    {
      CookOneMore(mode, Blank, typed, c);
      CookOneMore(mode, Behind(taken, Cooked()), readQ.contents, c);
      readQ.Put(c);
      typed := typed + [c];
    }

    /** The inner loop of tty_read: up to nr characters, the end of the queue, or an end-of-file character. */
    method Take(nr: nat) returns (out: seq<Byte>, eof: bool)
      requires Valid() && nr > 0 && !secondary.Empty()
      modifies this`taken, secondary
      ensures Valid() && Stops(mode, old(secondary.contents), nr, |out|) && (eof <==> |out| < nr && |out| < |old(secondary.contents)|)
      ensures old(secondary.contents) == out + Mark(mode, eof) + secondary.contents
      ensures taken == old(taken) + out + Mark(mode, eof) && (eof ==> mode.canon)
    {
      ghost var q := secondary.contents;
      out, eof := [], false;
      while |out| < nr && !secondary.Empty()
        invariant Valid() && |out| <= nr && Taking(mode, q, out, secondary.contents) && taken == old(taken) + out
        decreases |secondary.contents|
      {
        ghost var before := secondary.contents;
        var c := TakeOne();
        if Is(c, mode.eof) && mode.canon {
          TookEof(mode, q, nr, out, before, c);
          eof := true;
          return;
        }
        TookOne(mode, q, out, before, c);
        out := out + [c];
      }
      TookAll(mode, q, nr, out, secondary.contents);
    }

    /** GETCH and the count of terminators. */
    method TakeOne() returns (c: Byte)
      requires Valid() && !secondary.Empty()
      modifies this`taken, secondary
      ensures Valid() && c == old(secondary.contents)[0] && secondary.contents == old(secondary.contents)[1..] && taken == old(taken) + [c]
    {
      ghost var q := secondary.contents;
      c := secondary.Get();
      CountConcat(mode, [c], secondary.contents);
      assert taken + q == taken + [c] + secondary.contents;
      if Is(c, mode.eof) || c == NL {
        secondary.data := secondary.data - 1;
      }
      taken := taken + [c];
    }

    /** A burst of characters. */
    method ReceiveAll(bytes: seq<Byte>)
      requires Valid()
      modifies this, readQ, secondary, readQ.buf, secondary.buf
      ensures Valid() && taken == old(taken) && (Aligned(mode, taken) ==> exact == old(exact))
    {
      for i := 0 to |bytes|
        invariant Valid() && taken == old(taken) && (Aligned(mode, taken) ==> exact == old(exact))
      {
        Receive(bytes[i]);
      }
    }

    predicate MustWait()
      requires Valid()
      reads this, readQ, secondary, readQ.buf, secondary.buf
    {
      secondary.Empty() || (mode.canon && secondary.data == 0 && secondary.Left() > 20)
    }

    /** One pass of a reader that need not wait. */
    method Pass(nr: nat) returns (out: seq<Byte>, eof: bool)
      requires Valid() && nr > 0 && !MustWait()
      modifies this`taken, secondary
      ensures Valid() && |out| <= nr && taken == old(taken) + out + Mark(mode, eof) && (eof ==> mode.canon) && (out == [] ==> eof)
      ensures mode.canon ==> OnePass(mode, out, eof, secondary.contents)
    {
      ghost var q := secondary.contents;
      out, eof := Take(nr);
      assert forall i :: 0 <= i < |out| ==> out[i] == q[i];
    }

    /** Something happens; true for a signal. */
    method Happen(e: Event) returns (signal: bool)
      requires Valid()
      modifies this, readQ, secondary, readQ.buf, secondary.buf
      ensures Valid() && taken == old(taken) && signal == e.Signal? && (Aligned(mode, taken) ==> exact == old(exact))
    {
      signal := e.Signal?;
      if e.Typed? {
        ReceiveAll(e.bytes);
      }
    }

    /** Wait until there is a signal or something to read; `stuck` when the events run out. */
    method Await(pending: bool, events: seq<Event>, from: nat) returns (i: nat, signal: bool, stuck: bool)
      requires Valid() && from <= |events|
      modifies this, readQ, secondary, readQ.buf, secondary.buf
      ensures Valid() && taken == old(taken) && (Aligned(mode, taken) ==> exact == old(exact)) && from <= i <= |events|
      ensures (pending ==> signal) && (signal ==> pending || Signal in events) && (stuck ==> !signal)
      ensures !signal ==> stuck == MustWait()
    {
      i, signal, stuck := from, pending, false;
      while !signal && MustWait()
        invariant Valid() && taken == old(taken) && (Aligned(mode, taken) ==> exact == old(exact)) && from <= i <= |events|
        invariant (pending ==> signal) && (signal ==> pending || Signal in events) && !stuck
        decreases |events| - i
      {
        if i == |events| {
          stuck := true;
          return;
        }
        signal := Happen(events[i]);
        i := i + 1;
      }
    }

    /** One turn of a reader's loop: wait, then one pass unless there is a signal. */
    method Turn(nr: nat, pending: bool, events: seq<Event>, from: nat) returns (i: nat, signal: bool, stuck: bool, got: seq<Byte>, eof: bool)
      requires Valid() && nr > 0 && from <= |events|
      modifies this, readQ, secondary, readQ.buf, secondary.buf
      ensures Valid() && from <= i <= |events| && (pending ==> signal) && (signal ==> pending || Signal in events) && (stuck ==> !signal && MustWait())
      ensures taken == old(taken) + got + Mark(mode, eof) && |got| <= nr && (eof ==> mode.canon)
      ensures signal || stuck ==> got == [] && !eof
      ensures !signal && !stuck ==> (got == [] ==> eof) && (mode.canon ==> OnePass(mode, got, eof, secondary.contents))
      ensures Aligned(mode, old(taken)) ==> exact == old(exact)
    {
      i, signal, stuck := Await(pending, events, from);
      got, eof := [], false;
      if !signal && !stuck {
        got, eof := Pass(nr);
      }
      assert old(taken) + [] + Mark(mode, false) == old(taken);
    }

    /** tty_read without a timeout.  One event happens each time round that the reader has to wait;
        `pending` says whether a signal was there before. */
    method TtyRead(nr: int, vmin: nat, pending: bool, events: seq<Event>) returns (r: Outcome)
      requires Valid()
      modifies this, readQ, secondary, readQ.buf, secondary.buf
      ensures Valid() && (r.Failed? <==> nr < 0) && (r.Interrupted? ==> pending || Signal in events)
      ensures r.Failed? || r.Interrupted? ==> taken == old(taken)
      ensures r.Read? ==> |r.bytes| <= nr && taken == old(taken) + r.bytes + Mark(mode, r.eof) && (r.eof ==> mode.canon)
      ensures r.Waiting? ==> |r.bytes| < nr && taken == old(taken) + r.bytes && MustWait()
      ensures r.Read? && mode.canon && nr > 0 ==> OnePass(mode, r.bytes, r.eof, secondary.contents)
      ensures r.Read? && mode.canon && nr > 0 ==> WasReady(mode, r.bytes + Mark(mode, r.eof) + secondary.contents)
      ensures r.Read? && !mode.canon && Signal !in events ==> |r.bytes| >= if vmin < nr then vmin else nr
      ensures nr >= 0 && pending ==> r.Interrupted?
      ensures Aligned(mode, old(taken)) ==> exact == old(exact)
    {
      if nr < 0 {
        return Failed;
      }
      var minimum := if vmin > nr then nr else vmin;
      var out, i, signal := [], 0 as nat, pending;
      while |out| < nr
        invariant Valid() && |out| <= nr && i <= |events| && taken == old(taken) + out
        invariant out == [] || (!mode.canon && |out| < minimum)
        invariant signal ==> pending || Signal in events
        invariant pending ==> signal && out == []
        invariant Aligned(mode, old(taken)) ==> exact == old(exact)
        decreases nr - |out|
      {
        var stuck, got, eof;
        i, signal, stuck, got, eof := Turn(nr - |out|, signal, events, i);
        if stuck {
          return Waiting(out);
        }
        if signal {
          break;
        }
        assert mode.canon ==> out + got == got;
        assert old(taken) + out + got + Mark(mode, eof) == old(taken) + (out + got) + Mark(mode, eof);
        out := out + got;
        if eof {
          ReadyLaw(mode, out + Mark(mode, true) + secondary.contents);
          return Read(out, true);
        }
        if mode.canon {
          if out != [] {
            break;
          }
        } else if |out| >= minimum {
          break;
        }
      }
      r := if signal && out == [] then Interrupted else Read(out, false);
      ReadyLaw(mode, out + Mark(mode, false) + secondary.contents);
    }
  }

  /** out has been taken from q and rest is left; no end-of-file character so far. */
  ghost predicate Taking(m: Mode, q: seq<Byte>, out: seq<Byte>, rest: seq<Byte>) {
    q == out + rest && forall i :: 0 <= i < |out| ==> !Eof(m, out[i])
  }

  lemma TookOne(m: Mode, q: seq<Byte>, out: seq<Byte>, rest: seq<Byte>, c: Byte)
    requires Taking(m, q, out, rest) && rest != [] && c == rest[0] && !Eof(m, c)
    ensures Taking(m, q, out + [c], rest[1..])
  {
  }

  lemma TookEof(m: Mode, q: seq<Byte>, nr: nat, out: seq<Byte>, rest: seq<Byte>, c: Byte)
    requires Taking(m, q, out, rest) && rest != [] && c == rest[0] && Eof(m, c) && |out| < nr
    ensures Stops(m, q, nr, |out|) && |out| < |q| && q == out + Mark(m, true) + rest[1..]
  {
    assert forall i :: 0 <= i < |out| ==> q[i] == out[i];
  }

  lemma TookAll(m: Mode, q: seq<Byte>, nr: nat, out: seq<Byte>, rest: seq<Byte>)
    requires Taking(m, q, out, rest) && |out| <= nr && (|out| == nr || rest == [])
    ensures Stops(m, q, nr, |out|) && (|out| == nr || |out| == |q|) && q == out + Mark(m, false) + rest
  {
    assert forall i :: 0 <= i < |out| ==> q[i] == out[i];
  }

  function Mark(m: Mode, eof: bool): seq<Byte> { if eof then [m.eof] else [] }

  /** What a canonical reader gets when it leaves `rest` queued: the start of a queue that was ready,
      up to an end-of-file character, and nothing at all only for such a character. */
  predicate OnePass(m: Mode, out: seq<Byte>, eof: bool, rest: seq<Byte>) {
    (forall i :: 0 <= i < |out| ==> !Is(out[i], m.eof)) && (out == [] ==> eof) && Ready(m, out + Mark(m, eof) + rest)
  }

  /** At least 1003 characters, or a newline or end-of-file character among them. */
  predicate WasReady(m: Mode, q: seq<Byte>) {
    |q| >= 1003 || exists i :: 0 <= i < |q| && (q[i] == 10 || (q[i] < 128 && q[i] == m.eof))
  }

  lemma ReadyLaw(m: Mode, q: seq<Byte>)
    ensures Ready(m, q) <==> WasReady(m, q)
  {
    CountZero(m, q);
  }

  /** What makes a canonical reader proceed: a terminator, or a queue with at most 20 places left. */
  predicate Ready(m: Mode, q: seq<Byte>) { Count(m, q) > 0 || |q| >= 1003 }
}
