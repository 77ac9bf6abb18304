/** What the line discipline of kernel/tty_io.c does to the characters typed at a terminal, on
    sequences: each key edits the queue of cooked characters.

    The reference editor keeps the finished lines and the line being typed apart, and knows no
    queue; `CookRefines` connects the two.
 */
module LineDiscipline {

  import opened Bytes

  const NL: Byte := 10
  const CR: Byte := 13

  /** The flags and control characters that take part.  Case mapping and echo do not. */
  datatype Mode = Mode(
    icrnl: bool, igncr: bool, inlcr: bool, canon: bool, isig: bool,
    erase: Byte, stop: Byte, start: Byte, intr: Byte, eof: Byte)

  /** Characters are signed and control characters are not, so none from 128 up ever matches. */
  predicate Is(c: Byte, control: Byte) { c < 128 && c == control }

  predicate Ends(m: Mode, c: Byte) { c == NL || Is(c, m.eof) }

  function Count(m: Mode, q: seq<Byte>): nat {
    if q == [] then 0 else Count(m, q[..|q| - 1]) + if Ends(m, q[|q| - 1]) then 1 else 0
  }

  // ---------------------------------------------------------------- keys

  datatype Key = Nothing | Erase | Stop | Start | Interrupt | Char(c: Byte)

  /** What a received character asks for.  Signals are raised when ISIG is off. */
  function KeyOf(m: Mode, received: Byte): Key {
    if received == CR && !m.icrnl && m.igncr then Nothing else
      var c := Mapped(m, received);
      if m.canon && Is(c, m.erase) then Erase
      else if m.canon && Is(c, m.stop) then Stop
      else if m.canon && Is(c, m.start) then Start
      else if !m.isig && Is(c, m.intr) then Interrupt
      else Char(c)
  }

  /** What the received character has become after the mapping of carriage returns and newlines. */
  function Mapped(m: Mode, received: Byte): Byte {
    if received == CR && m.icrnl then NL else if received == NL && m.inlcr then CR else received
  }

  /** The interrupt character, not ignored and not taken by canonical editing. */
  predicate AsksInterrupt(m: Mode, received: Byte) {
    var c := Mapped(m, received);
    && Is(c, m.intr) && !(received == CR && !m.icrnl && m.igncr)
    && !(m.canon && (Is(c, m.erase) || Is(c, m.stop) || Is(c, m.start)))
  }

  /** ISIG is meant to turn signals on.  The code raises them exactly when it is off, so for every character that asks
      for an interrupt it does the opposite, and for every other it does what is meant. */
  lemma SignalsWhenIsigIsOff(m: Mode, received: Byte)
    ensures KeyOf(m, received) == Interrupt <==> AsksInterrupt(m, received) && !m.isig
    ensures (KeyOf(m, received) == Interrupt <==> AsksInterrupt(m, received) && m.isig) <==> !AsksInterrupt(m, received)
  {
  }

  /** The first terminal's settings, with ISIG turned on: control-C is then an ordinary character. */
  lemma IsigTurnsInterruptsOff(m: Mode)
    requires m == Mode(false, false, false, true, true, 127, 19, 17, 3, 4)
    ensures AsksInterrupt(m, 3) && KeyOf(m, 3) == Char(3) && KeyOf(m.(isig := false), 3) == Interrupt
  {
  }

  /** The cooked queue, whether output is stopped, how many interrupts were raised. */
  datatype State = State(q: seq<Byte>, stopped: bool, intrs: nat)

  const Blank: State := State([], false, 0)

  function Cook(m: Mode, s: State, received: Byte): State { Apply(m, s, KeyOf(m, received)) }

  function Apply(m: Mode, s: State, key: Key): State {
    match key
    case Nothing => s
    case Erase => if s.q == [] || Ends(m, s.q[|s.q| - 1]) then s else s.(q := s.q[..|s.q| - 1])
    case Stop => s.(stopped := true)
    case Start => s.(stopped := false)
    case Interrupt => s.(intrs := s.intrs + 1)
    case Char(c) => s.(q := s.q + [c])
  }

  function CookAll(m: Mode, s: State, typed: seq<Byte>): State
    decreases |typed|
  {
    if typed == [] then s else CookAll(m, Cook(m, s, typed[0]), typed[1..])
  }

  lemma {:induction false} CookOneMore(m: Mode, s: State, typed: seq<Byte>, c: Byte)
    ensures CookAll(m, s, typed + [c]) == Cook(m, CookAll(m, s, typed), c)
    decreases |typed|
  {
    if typed != [] {
      assert (typed + [c])[1..] == typed[1..] + [c];
      CookOneMore(m, Cook(m, s, typed[0]), typed[1..], c);
    } else {
      assert typed + [c] == [c];
    }
  }

  /** Each received character in numbers: 10 is newline and 13 carriage return; a control character counts below 128. */
  lemma KeyLaw(m: Mode, s: State, c: Byte)
    ensures var s' := Cook(m, s, c);
      var x: Byte := if c == 13 && m.icrnl then 10 else if c == 10 && m.inlcr then 13 else c;
      var n := |s.q|;
      if c == 13 && !m.icrnl && m.igncr then s' == s
      else if m.canon && x < 128 && x == m.erase then
        s'.stopped == s.stopped && s'.intrs == s.intrs &&
        s'.q == if n == 0 || s.q[n - 1] == 10 || (s.q[n - 1] < 128 && s.q[n - 1] == m.eof) then s.q else s.q[..n - 1]
      else if m.canon && x < 128 && x == m.stop then s'.stopped && s'.q == s.q && s'.intrs == s.intrs
      else if m.canon && x < 128 && x == m.start then !s'.stopped && s'.q == s.q && s'.intrs == s.intrs
      else if !m.isig && x < 128 && x == m.intr then s'.intrs == s.intrs + 1 && s'.q == s.q && s'.stopped == s.stopped
      else s'.q == s.q + [x] && s'.stopped == s.stopped && s'.intrs == s.intrs
  {
  }

  /** secondary.data in numbers: the queued characters that are newlines or the end-of-file character. */
  lemma {:induction false} CountLaw(m: Mode, q: seq<Byte>)
    ensures Count(m, q) == |set i | 0 <= i < |q| && (q[i] == 10 || (q[i] < 128 && q[i] == m.eof))|
    decreases |q|
  {
    var n := |q| - 1;
    var all := set i | 0 <= i < |q| && (q[i] == 10 || (q[i] < 128 && q[i] == m.eof));
    if q == [] {
      assert all == {};
    } else {
      var r := q[..n];
      CountLaw(m, r);
      var rest := set i | 0 <= i < |r| && (r[i] == 10 || (r[i] < 128 && r[i] == m.eof));
      assert all == if Ends(m, q[n]) then rest + {n} else rest;
    }
  }

  // ---------------------------------------------------------------- the reference editor

  datatype Editor = Editor(finished: seq<Byte>, line: seq<Byte>, stopped: bool, intrs: nat)

  /** A terminator finishes the line; erase takes back the last character of the line, if there is one. */
  function Press(m: Mode, e: Editor, key: Key): Editor {
    match key
    case Nothing => e
    case Erase => if e.line == [] then e else e.(line := e.line[..|e.line| - 1])
    case Stop => e.(stopped := true)
    case Start => e.(stopped := false)
    case Interrupt => e.(intrs := e.intrs + 1)
    case Char(c) => if Ends(m, c) then e.(finished := e.finished + e.line + [c], line := []) else e.(line := e.line + [c])
  }

  /** Where the unfinished line begins. */
  function LineStart(m: Mode, q: seq<Byte>): (k: nat)
    ensures k <= |q| && (k > 0 ==> Ends(m, q[k - 1])) && forall i :: k <= i < |q| ==> !Ends(m, q[i])
  {
    if q == [] || Ends(m, q[|q| - 1]) then |q| else LineStart(m, q[..|q| - 1])
  }

  function AsEditor(m: Mode, s: State): Editor {
    Editor(s.q[..LineStart(m, s.q)], s.q[LineStart(m, s.q)..], s.stopped, s.intrs)
  }

  lemma {:induction false} LineGrows(m: Mode, q: seq<Byte>, c: Byte)
    ensures LineStart(m, q + [c]) == if Ends(m, c) then |q| + 1 else LineStart(m, q)
  {
    assert (q + [c])[..|q|] == q;
  }

  lemma Halves(q: seq<Byte>, c: Byte, k: nat)
    requires k <= |q|
    ensures (q + [c])[..k] == q[..k] && (q + [c])[k..] == q[k..] + [c]
    ensures (q + [c])[..|q| + 1] == q[..k] + q[k..] + [c] && (q + [c])[|q| + 1..] == []
  {
  }

  /** A character joins the line, or finishes it. */
  lemma {:induction false} CharRefines(m: Mode, s: State, c: Byte)
    ensures AsEditor(m, Apply(m, s, Char(c))) == Press(m, AsEditor(m, s), Char(c))
  {
    var q, k := s.q, LineStart(m, s.q);
    LineGrows(m, q, c);
    Halves(q, c, k);
  }

  /** An erase that the queue refuses meets an empty line; any other takes the last character of the line. */
  lemma {:induction false} EraseRefines(m: Mode, s: State)
    ensures AsEditor(m, Apply(m, s, Erase)) == Press(m, AsEditor(m, s), Erase)
  {
    var q, k := s.q, LineStart(m, s.q);
    if q != [] && !Ends(m, q[|q| - 1]) {
      var q' := q[..|q| - 1];
      assert LineStart(m, q') == k;
      assert q'[k..] == q[k..][..|q[k..]| - 1] && q'[..k] == q[..k];
    }
  }

  /** Editing the queue is editing lines: erase never reaches into a finished one. */
  lemma {:induction false} CookRefines(m: Mode, s: State, received: Byte)
    ensures AsEditor(m, Cook(m, s, received)) == Press(m, AsEditor(m, s), KeyOf(m, received))
  {
    match KeyOf(m, received)
    case Char(c) => CharRefines(m, s, c);
    case Erase => EraseRefines(m, s);
    case _ =>
  }

  /** Over every sequence of keys. */
  lemma {:induction false} CookAllRefines(m: Mode, s: State, typed: seq<Byte>)
    ensures AsEditor(m, CookAll(m, s, typed)) == PressAll(m, AsEditor(m, s), typed)
    decreases |typed|
  {
    if typed != [] {
      CookRefines(m, s, typed[0]);
      CookAllRefines(m, Cook(m, s, typed[0]), typed[1..]);
    }
  }

  function PressAll(m: Mode, e: Editor, typed: seq<Byte>): Editor
    decreases |typed|
  {
    if typed == [] then e else PressAll(m, Press(m, e, KeyOf(m, typed[0])), typed[1..])
  }

  predicate EndsLine(m: Mode, received: Byte) {
    var k := KeyOf(m, received);
    k.Char? && Ends(m, k.c)
  }

  /** The number of terminators moves only when one is appended. */
  lemma {:induction false} CookCounts(m: Mode, s: State, received: Byte)
    ensures Count(m, Cook(m, s, received).q) == Count(m, s.q) + (if EndsLine(m, received) then 1 else 0)
  {
    match KeyOf(m, received)
    case Char(c) => assert (s.q + [c])[..|s.q|] == s.q;
    case _ =>
  }

  lemma {:induction false} CountConcat(m: Mode, a: seq<Byte>, b: seq<Byte>)
    ensures Count(m, a + b) == Count(m, a) + Count(m, b)
    decreases |b|
  {
    if b == [] {
      assert a + b == a;
    } else {
      assert (a + b)[..|a + b| - 1] == a + b[..|b| - 1];
      CountConcat(m, a, b[..|b| - 1]);
    }
  }

  /** No terminator, or one somewhere. */
  lemma {:induction false} CountZero(m: Mode, q: seq<Byte>)
    ensures Count(m, q) == 0 <==> forall i :: 0 <= i < |q| ==> !Ends(m, q[i])
    decreases |q|
  {
    if q != [] {
      CountZero(m, q[..|q| - 1]);
      assert forall i :: 0 <= i < |q| - 1 ==> q[..|q| - 1][i] == q[i];
    }
  }

  // ---------------------------------------------------------------- readers

  /** An erase typed when readers have already taken the characters it is meant for. */
  predicate TooLate(m: Mode, taken: seq<Byte>, q: seq<Byte>, received: Byte) {
    KeyOf(m, received) == Erase && q == [] && taken != [] && !Ends(m, taken[|taken| - 1])
  }

  /** Nobody has part of an unfinished line: then no erase can come too late. */
  predicate Aligned(m: Mode, taken: seq<Byte>) { !m.canon || taken == [] || Ends(m, taken[|taken| - 1]) }

  function Behind(taken: seq<Byte>, s: State): State { s.(q := taken + s.q) }

  /** Taking characters away early does not change what the keys make of the whole stream, except for
      an erase that comes too late. */
  lemma {:induction false} EditingCommutesWithReading(m: Mode, taken: seq<Byte>, s: State, received: Byte)
    ensures Cook(m, Behind(taken, s), received) == Behind(taken, Cook(m, s, received)) <==> !TooLate(m, taken, s.q, received)
  {
    var q := s.q;
    match KeyOf(m, received)
    case Char(c) => assert taken + q + [c] == taken + (q + [c]);
    case Erase => {
      var all := taken + q;
      if q != [] {
        assert all[|all| - 1] == q[|q| - 1];
        assert all[..|all| - 1] == taken + q[..|q| - 1];
      } else {
        assert all == taken;
        if TooLate(m, taken, q, received) {
          assert |Cook(m, Behind(taken, s), received).q| == |taken| - 1;
        }
      }
    }
    case _ =>
  }

  /** The conservation law, one key on: `typed` is everything received, `pending` what is not yet cooked. */
  lemma KeyConserves(m: Mode, typed: seq<Byte>, taken: seq<Byte>, s: State, pending: seq<Byte>)
    requires pending != [] && CookAll(m, Blank, typed) == CookAll(m, Behind(taken, s), pending)
    requires !TooLate(m, taken, s.q, pending[0])
    ensures CookAll(m, Blank, typed) == CookAll(m, Behind(taken, Cook(m, s, pending[0])), pending[1..])
  {
    EditingCommutesWithReading(m, taken, s, pending[0]);
  }

  // ---------------------------------------------------------------- one pass of a reader

  predicate Eof(m: Mode, c: Byte) { m.canon && Is(c, m.eof) }

  /** A reader with room for nr characters stops after k: no room, no more, or an end-of-file character. */
  predicate Stops(m: Mode, q: seq<Byte>, nr: nat, k: nat) {
    && k <= nr && k <= |q| && (forall i :: 0 <= i < k ==> !Eof(m, q[i]))
    && (k == nr || k == |q| || Eof(m, q[k]))
  }

  /** The first newline, or the length. */
  function FirstLine(q: seq<Byte>): (k: nat)
    ensures k <= |q| && (k < |q| ==> q[k] == NL) && forall i :: 0 <= i < k ==> q[i] != NL
  {
    if q == [] || q[0] == NL then 0 else 1 + FirstLine(q[1..])
  }

  /** A canonical reader is meant to get at most one line.  The code does not stop at a newline, so it
      does exactly when its room, the queue, or an end-of-file character stops it there. */
  lemma AtMostOneLine(m: Mode, q: seq<Byte>, nr: nat, k: nat)
    requires m.canon && Stops(m, q, nr, k)
    ensures k <= FirstLine(q) + 1 <==>
            nr <= FirstLine(q) + 1 || |q| <= FirstLine(q) + 1 || exists i :: 0 <= i <= FirstLine(q) + 1 && i < |q| && Is(q[i], m.eof)
  {
    if k <= FirstLine(q) + 1 && k < nr && k < |q| {
      assert Is(q[k], m.eof);
    }
  }

  /** Two short lines typed ahead come out of one read. */
  lemma ReadsPastNewline(m: Mode)
    requires m.canon && m.eof == 4
    ensures Stops(m, [97, NL, 98, NL], 100, 4) && FirstLine([97, NL, 98, NL]) == 1
  {
    var q: seq<Byte> := [97, NL, 98, NL];
    assert q[0] != NL && q[1] == NL;
  }

  /** Characters that ask for nothing join the queue. */
  lemma {:induction false} PlainTyping(m: Mode, s: State, typed: seq<Byte>)
    requires forall i :: 0 <= i < |typed| ==> KeyOf(m, typed[i]) == Char(typed[i])
    ensures CookAll(m, s, typed) == s.(q := s.q + typed)
    decreases |typed|
  {
    if typed != [] {
      assert s.q + [typed[0]] + typed[1..] == s.q + typed;
      PlainTyping(m, Cook(m, s, typed[0]), typed[1..]);
    } else {
      assert s.q + typed == s.q;
    }
  }

  /** Typed "ab", newline, "cd": one canonical read takes all five characters, and an erase typed after it is lost, while
      before it the erase would have taken the d. */
  lemma EraseAfterRead(m: Mode)
    requires m == Mode(false, false, false, true, false, 127, 19, 17, 3, 4)
    ensures var s := CookAll(m, Blank, [97, 98, NL, 99, 100]);
      && s.q == [97, 98, NL, 99, 100] && Stops(m, s.q, 100, 5)
      && TooLate(m, s.q, [], 127)
      && Behind(s.q, Cook(m, Blank, 127)).q == [97, 98, NL, 99, 100]
      && Cook(m, s, 127).q == [97, 98, NL, 99]
  {
    var a: seq<Byte> := [97, 98, NL, 99, 100];
    PlainTyping(m, Blank, a);
    assert Blank.q + a == a && a[..4] == [97, 98, NL, 99] && a + [] == a;
  }
}
