/** The keyboard ring: interrupts push while one reader takes characters out step by step (src/kernel/keyboard.c). */
module Keyboard {
  import opened Words

  const KEYBOARD_BUFFER_SIZE: int := 128

  /** How far the reader has come in `keyboard_getchar`. */
  datatype Phase = Idle | Checked | Holding(c: uint8)

  /** The shared variables and the reader's progress. */
  datatype Ring = Ring(buffer: seq<uint8>, head: nat, tail: nat, phase: Phase)

  predicate Shaped(r: Ring) {
    |r.buffer| == KEYBOARD_BUFFER_SIZE && r.head < KEYBOARD_BUFFER_SIZE && r.tail < KEYBOARD_BUFFER_SIZE
  }

  /** The cell after cell k of the ring. */
  function After(k: nat): (r: nat)
    ensures r < KEYBOARD_BUFFER_SIZE
  {
    (k + 1) % KEYBOARD_BUFFER_SIZE
  }

  /** The cell k places behind tail. */
  function Cell(tail: nat, k: nat): (r: nat)
    ensures r < KEYBOARD_BUFFER_SIZE
  {
    (tail + k) % KEYBOARD_BUFFER_SIZE
  }

  /** The number of characters between tail and head. */
  function Count(r: Ring): (n: nat)
    requires Shaped(r)
    ensures n < KEYBOARD_BUFFER_SIZE
  {
    (r.head + KEYBOARD_BUFFER_SIZE - r.tail) % KEYBOARD_BUFFER_SIZE
  }

  /** The characters that wait to be read, the oldest first. */
  function Pending(r: Ring): (s: seq<uint8>)
    requires Shaped(r)
    ensures |s| == Count(r)
  {
    seq(Count(r), k requires 0 <= k < Count(r) => r.buffer[Cell(r.tail, k)])
  }

  /** The indivisible steps: an interrupt pushes a character; the reader checks, reads the cell, moves on. */
  datatype Event = Push(c: uint8) | Check | Read | Advance

  function Step(r: Ring, e: Event): (s: Ring)
    requires Shaped(r)
    ensures Shaped(s)
  {
    match e
    case Push(c) =>
      if After(r.head) == r.tail then r else r.(buffer := r.buffer[r.head := c], head := After(r.head))
    case Check => if r.phase.Idle? && r.head != r.tail then r.(phase := Checked) else r
    case Read => if r.phase.Checked? then r.(phase := Holding(r.buffer[r.tail])) else r
    case Advance => if r.phase.Holding? then r.(tail := After(r.tail), phase := Idle) else r
  }

  /** The character that a step takes into the ring. */
  function Accepts(r: Ring, e: Event): seq<uint8>
    requires Shaped(r)
  {
    if e.Push? && Count(r) < KEYBOARD_BUFFER_SIZE - 1 then [e.c] else []
  }

  /** 127 characters fit: a pushed one is dropped if and only if so many wait. */
  lemma Dropped(r: Ring, c: uint8)
    requires Shaped(r)
    ensures |Pending(r)| <= 127
    ensures Accepts(r, Push(c)) == if |Pending(r)| == 127 then [] else [c]
  {
  }

  /** The character that a step delivers: `keyboard_getchar` returns. */
  function Delivers(r: Ring, e: Event): seq<uint8> {
    if e.Advance? && r.phase.Holding? then [r.phase.c] else []
  }

  /** A reader that is under way has something to read, and holds the oldest character. */
  ghost predicate Ok(r: Ring) {
    Shaped(r)
    && (!r.phase.Idle? ==> Pending(r) != [])
    && (r.phase.Holding? ==> Pending(r)[0] == r.phase.c)
  }

  /** An interrupt adds its character at the end, or drops it exactly if 127 are waiting; the reader's steps change what
      waits only when they deliver its first character. */
  lemma StepPending(r: Ring, e: Event)
    requires Ok(r)
    ensures Ok(Step(r, e)) && Pending(r) + Accepts(r, e) == Delivers(r, e) + Pending(Step(r, e))
  {
    match e
    case Push(c) => PushPending(r, c);
    case Advance => AdvancePending(r);
    case _ =>
  }

  lemma PushPending(r: Ring, c: uint8)
    requires Ok(r)
    ensures Ok(Step(r, Push(c))) && Pending(r) + Accepts(r, Push(c)) == Pending(Step(r, Push(c)))
  {
    var s := Step(r, Push(c));
    FullCount(r);
    if s != r {
      PushCount(r, s);
      hide Count, Cell, After;
      assert Pending(s) == Pending(r) + [c];
    }
  }

  lemma FullCount(r: Ring)
    requires Shaped(r)
    ensures After(r.head) == r.tail <==> Count(r) == KEYBOARD_BUFFER_SIZE - 1
  {
  }

  lemma AdvancePending(r: Ring)
    requires Ok(r)
    ensures Ok(Step(r, Advance)) && Pending(r) == Delivers(r, Advance) + Pending(Step(r, Advance))
  {
    var s := Step(r, Advance);
    if s != r {
      AdvanceCount(r, s);
      hide Count, After;
      FirstPending(r, s);
    }
  }

  lemma PushCount(r: Ring, s: Ring)
    requires Shaped(r) && Shaped(s) && s.head == After(r.head) && s.tail == r.tail && s.head != s.tail
    ensures Count(s) == Count(r) + 1
    ensures Cell(r.tail, Count(r)) == r.head
    ensures forall k: nat :: k < Count(r) ==> Cell(r.tail, k) != r.head
  {
    CountCases(r);
    CountCases(s);
    AfterCases(r.head);
    hide After, Count;
    forall k: nat | k < Count(r)
      ensures Cell(r.tail, k) != r.head
    {
      CellCases(r.tail, k);
      hide Cell;
    }
    CellCases(r.tail, Count(r));
    hide Cell;
  }

  // The three modular expressions, case by case.

  lemma CountCases(r: Ring)
    requires Shaped(r)
    ensures Count(r) == if r.head >= r.tail then r.head - r.tail else r.head + KEYBOARD_BUFFER_SIZE - r.tail
  {
  }

  lemma AfterCases(k: nat)
    requires k < KEYBOARD_BUFFER_SIZE
    ensures After(k) == if k + 1 == KEYBOARD_BUFFER_SIZE then 0 else k + 1
  {
  }

  lemma CellCases(tail: nat, k: nat)
    requires tail < KEYBOARD_BUFFER_SIZE && k <= KEYBOARD_BUFFER_SIZE
    ensures Cell(tail, k) == if tail + k < KEYBOARD_BUFFER_SIZE then tail + k else tail + k - KEYBOARD_BUFFER_SIZE
  {
  }

  lemma AdvanceCount(r: Ring, s: Ring)
    requires Shaped(r) && Shaped(s) && s.tail == After(r.tail) && s.head == r.head && r.head != r.tail
    ensures Count(r) == Count(s) + 1
    ensures forall k: nat :: Cell(s.tail, k) == Cell(r.tail, k + 1)
  {
  }

  lemma FirstPending(r: Ring, s: Ring)
    requires Shaped(r) && Shaped(s) && s.buffer == r.buffer && s.tail == After(r.tail) && s.head == r.head
             && r.head != r.tail
    ensures Pending(r) == [Pending(r)[0]] + Pending(s)
  {
    AdvanceCount(r, s);
    hide Count, Cell;
    var ps, qs := Pending(r), [Pending(r)[0]] + Pending(s);
    forall k: nat | k < |ps|
      ensures ps[k] == qs[k]
    {
      if k > 0 {
        assert Cell(s.tail, k - 1) == Cell(r.tail, k - 1 + 1);
      }
    }
  }

  function Run(r: Ring, es: seq<Event>): (s: Ring)
    requires Shaped(r)
    ensures Shaped(s)
    decreases |es|
  {
    if es == [] then r else Run(Step(r, es[0]), es[1..])
  }

  function Accepted(r: Ring, es: seq<Event>): seq<uint8>
    requires Shaped(r)
    decreases |es|
  {
    if es == [] then [] else Accepts(r, es[0]) + Accepted(Step(r, es[0]), es[1..])
  }

  function Delivered(r: Ring, es: seq<Event>): seq<uint8>
    requires Shaped(r)
    decreases |es|
  {
    if es == [] then [] else Delivers(r, es[0]) + Delivered(Step(r, es[0]), es[1..])
  }

  /** First in, first out under every interleaving: what waited and what was accepted is what has been delivered and
      what still waits, in order, each character once; and never more than 127 wait. */
  lemma {:induction false} FirstInFirstOut(r: Ring, es: seq<Event>)
    requires Ok(r)
    ensures Ok(Run(r, es)) && Pending(r) + Accepted(r, es) == Delivered(r, es) + Pending(Run(r, es))
    ensures |Pending(Run(r, es))| <= KEYBOARD_BUFFER_SIZE - 1
    decreases |es|
  {
    if es == [] {
    } else {
      var e, s, rest := es[0], Step(r, es[0]), es[1..];
      StepPending(r, e);
      FirstInFirstOut(s, rest);
      hide Pending, Accepts, Delivers, Step, Ok;
      Chained(Pending(r), Accepts(r, e), Delivers(r, e), Pending(s), Accepted(s, rest), Delivered(s, rest),
              Pending(Run(s, rest)));
    }
  }

  lemma Chained(p: seq<uint8>, a: seq<uint8>, d: seq<uint8>, q: seq<uint8>, a': seq<uint8>, d': seq<uint8>,
                q': seq<uint8>)
    requires p + a == d + q && q + a' == d' + q'
    ensures p + (a + a') == (d + d') + q'
  {
    assert p + (a + a') == (p + a) + a';
    assert (d + q) + a' == d + (q + a');
    assert d + (d' + q') == (d + d') + q';
  }

  /** From an empty ring the delivered characters are always a prefix of the accepted ones. */
  lemma DeliveredIsPrefix(r: Ring, es: seq<Event>)
    requires Ok(r) && Pending(r) == []
    ensures Delivered(r, es) <= Accepted(r, es)
    ensures |Accepted(r, es)| - |Delivered(r, es)| <= KEYBOARD_BUFFER_SIZE - 1
  {
    FirstInFirstOut(r, es);
    assert [] + Accepted(r, es) == Accepted(r, es);
  }

  /** Interrupts during `keyboard_getchar`. */
  predicate OnlyPushes(es: seq<Event>) {
    forall e :: e in es ==> e.Push?
  }

  lemma {:induction false} PushesKeepReader(r: Ring, es: seq<Event>)
    requires Shaped(r) && OnlyPushes(es)
    ensures Run(r, es).phase == r.phase && Run(r, es).tail == r.tail && Delivered(r, es) == []
    decreases |es|
  {
    if es == [] {
    } else {
      assert es[0].Push?;
      PushesKeepReader(Step(r, es[0]), es[1..]);
    }
  }

  /** `keyboard_getchar` with interrupts before each of its steps returns the oldest character that was waiting when it
      started, and removes exactly that one. */
  lemma GetcharInterrupted(r: Ring, a: seq<Event>, b: seq<Event>, c: seq<Event>)
    requires Ok(r) && r.phase.Idle? && Pending(r) != [] && OnlyPushes(a) && OnlyPushes(b) && OnlyPushes(c)
    ensures var s0 := Step(Run(r, a), Check);
            var s1 := Step(Run(s0, b), Read);
            var s2 := Run(s1, c);
            && Delivers(s2, Advance) == [Pending(r)[0]]
            && [Pending(r)[0]] + Pending(Step(s2, Advance)) ==
               Pending(r) + Accepted(r, a) + Accepted(s0, b) + Accepted(s1, c)
  {
    hide Pending, Count, Accepted, Delivered, Accepts;
    PushesKeepReader(r, a);
    FirstInFirstOut(r, a);
    var r0 := Run(r, a);
    assert Pending(r0) == Pending(r) + Accepted(r, a);
    NotEmpty(r0);
    StepPending(r0, Check);
    var s0 := Step(r0, Check);
    NothingAccepted(r0, Check);
    PushesKeepReader(s0, b);
    FirstInFirstOut(s0, b);
    var r1 := Run(s0, b);
    StepPending(r1, Read);
    NothingAccepted(r1, Read);
    var s1 := Step(r1, Read);
    PushesKeepReader(s1, c);
    FirstInFirstOut(s1, c);
    var s2 := Run(s1, c);
    StepPending(s2, Advance);
    NothingAccepted(s2, Advance);
    Unchanged(Pending(r0), Pending(s0));
    Unchanged(Pending(r1), Pending(s1));
    assert Pending(s1) == Pending(r1) == Pending(s0) + Accepted(s0, b);
    assert Pending(s2) == Pending(s1) + Accepted(s1, c);
    Unchanged(Pending(s2), Delivers(s2, Advance) + Pending(Step(s2, Advance)));
  }

  lemma Unchanged(p: seq<uint8>, q: seq<uint8>)
    ensures p + [] == [] + q <==> p == q
    ensures p + [] == p && [] + q == q
  {
    assert p + [] == p && [] + q == q;
  }

  lemma NotEmpty(r: Ring)
    requires Shaped(r)
    ensures Pending(r) != [] <==> r.head != r.tail
  {
  }

  lemma NothingAccepted(r: Ring, e: Event)
    requires Shaped(r) && !e.Push?
    ensures Accepts(r, e) == []
  {
  }

  /** Who takes the characters out. */
  datatype Owner = KernelOwner | UserOwner

  /** The variables of the driver. */
  class KeyboardBuffer {
    const buffer: array<uint8>
    var head: nat
    var tail: nat
    var owner: Owner

    predicate Valid()
      reads this
    {
      buffer.Length == KEYBOARD_BUFFER_SIZE && head < KEYBOARD_BUFFER_SIZE && tail < KEYBOARD_BUFFER_SIZE
    }

    function State(): Ring
      reads this, buffer
    {
      Ring(buffer[..], head, tail, Idle)
    }

    constructor ()
      ensures Valid() && fresh(buffer) && Pending(State()) == []
    {
      buffer := new uint8[KEYBOARD_BUFFER_SIZE](i => 0);
      head, tail, owner := 0, 0, KernelOwner;
    }

    /** `keyboard_set_owner` */
    method SetOwner(owner: Owner)
      modifies this`owner
      ensures this.owner == owner
    {
      this.owner := owner;
    }

    /** `keyboard_buffer_push` */
    method Push(c: uint8)
      requires Valid()
      modifies this`head, buffer
      ensures Valid() && State() == Step(old(State()), Event.Push(c))
      ensures Pending(State()) ==
                old(Pending(State())) + if |old(Pending(State()))| < KEYBOARD_BUFFER_SIZE - 1 then [c] else []
    {
      StepPending(State(), Event.Push(c));
      var nextHead := (head + 1) % KEYBOARD_BUFFER_SIZE;
      if nextHead == tail {
        return;
      }
      buffer[head] := c;
      head := nextHead;
    }

    /** `keyboard_has_input` */
    method HasInput() returns (some: bool)
      requires Valid()
      ensures some <==> Pending(State()) != []
    {
      NotEmpty(State());
      some := head != tail;
    }

    /** `keyboard_getchar` */
    method Getchar() returns (c: uint8)
      requires Valid()
      modifies this`tail
      ensures Valid()
      ensures old(Pending(State())) == [] ==> c == 0 && State() == old(State())
      ensures old(Pending(State())) != [] ==> old(Pending(State())) == [c] + Pending(State())
    {
      ghost var before := State();
      var some := HasInput();
      if !some {
        return 0;
      }
      c := buffer[tail];
      tail := (tail + 1) % KEYBOARD_BUFFER_SIZE;
      StepPending(before.(phase := Holding(c)), Advance);
    }
  }
}
