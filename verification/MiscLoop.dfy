/** The loopback misc driver (ldt/misc_loop_drv.c): write() fills out_fifo, a tasklet moves bytes
    through a one-byte emulated port into in_fifo, read() empties that. The port's TX_FULL flag is
    also its RX_READY flag. Tasklet loops are taken one iteration at a time, so that reads, writes and
    interrupts can fall anywhere between. */
module MiscLoop {
  import opened Bytes

  const FIFO_SIZE := 128

  datatype Pc = Idle | TxLoop | RxLoop

  /** A byte that has left the port: stored in in_fifo, or dropped because that was full. */
  datatype Moved = Moved(byte: Byte, kept: bool)

  datatype State = State(
    outFifo: seq<Byte>, inFifo: seq<Byte>,
    port: Byte, full: bool,
    pc: Pc, scheduled: bool, irqPending: bool,
    accepted: seq<Byte>, read: seq<Byte>, moved: seq<Moved>)

  /** A write that `waited` has passed the test for a full FIFO at an earlier time. */
  datatype Event = Write(bytes: seq<Byte>, waited: bool) | Read(count: nat) | Interrupt | Tasklet

  // ---------------------------------------------------------------- steps

  /** kfifo_from_user takes what fits. */
  function Room(s: State, bytes: seq<Byte>): (n: nat)
    ensures n <= |bytes|
    ensures |s.outFifo| <= FIFO_SIZE ==>
              |s.outFifo| + n <= FIFO_SIZE && (n == |bytes| || |s.outFifo| + n == FIFO_SIZE)
  {
    if |s.outFifo| < FIFO_SIZE then Min(|bytes|, FIFO_SIZE - |s.outFifo|) else 0
  }

  function Written(s: State, bytes: seq<Byte>, waited: bool): State {
    if |s.outFifo| >= FIFO_SIZE && !waited then s
    else
      var b := bytes[..Room(s, bytes)];
      s.(outFifo := s.outFifo + b, accepted := s.accepted + b, scheduled := true)
  }

  function WasRead(s: State, count: nat): State {
    var n := Min(count, |s.inFifo|);
    s.(inFifo := s.inFifo[n..], read := s.read + s.inFifo[..n])
  }

  function Interrupted(s: State): State {
    s.(irqPending := false, scheduled := true)
  }

  /** The next iteration of the tasklet's loops. */
  function TaskletStep(s: State): State {
    match s.pc
    case Idle => if s.scheduled then s.(scheduled := false, pc := TxLoop) else s
    case TxLoop =>
      if !s.full && s.outFifo != [] then
        s.(port := s.outFifo[0], outFifo := s.outFifo[1..], full := true, irqPending := true)
      else s.(pc := RxLoop)
    case RxLoop =>
      if s.full then
        var kept := |s.inFifo| < FIFO_SIZE;
        s.(inFifo := if kept then s.inFifo + [s.port] else s.inFifo,
           moved := s.moved + [Moved(s.port, kept)], full := false)
      else s.(pc := Idle)
  }

  function Step(s: State, e: Event): State {
    match e
    case Write(bytes, waited) => Written(s, bytes, waited)
    case Read(count) => WasRead(s, count)
    case Interrupt => Interrupted(s)
    case Tasklet => TaskletStep(s)
  }

  function Run(s: State, events: seq<Event>): State {
    if events == [] then s else Step(Run(s, events[..|events| - 1]), events[|events| - 1])
  }

  const START := State([], [], 0, false, Idle, false, false, [], [], [])

  // ---------------------------------------------------------------- what is conserved

  function Through(m: seq<Moved>): seq<Byte> {
    if m == [] then [] else Through(m[..|m| - 1]) + [m[|m| - 1].byte]
  }

  function Kept(m: seq<Moved>): seq<Byte> {
    if m == [] then [] else Kept(m[..|m| - 1]) + if m[|m| - 1].kept then [m[|m| - 1].byte] else []
  }

  function Drops(m: seq<Moved>): nat {
    if m == [] then 0 else Drops(m[..|m| - 1]) + if m[|m| - 1].kept then 0 else 1
  }

  function InPort(s: State): seq<Byte> {
    if s.full then [s.port] else []
  }

  predicate Pending(s: State) {
    s.scheduled || s.irqPending
  }

  /** Every accepted byte has moved on, is in the port or waits, in order. */
  ghost predicate Conserved(s: State) {
    && s.accepted == Through(s.moved) + InPort(s) + s.outFifo
    && s.read + s.inFifo == Kept(s.moved)
  }

  ghost predicate Inv(s: State) {
    && |s.inFifo| <= FIFO_SIZE && |s.outFifo| <= FIFO_SIZE
    && Conserved(s)
    // somebody will come for the bytes that wait
    && (s.full ==> s.pc != Idle && Pending(s))
    && (s.outFifo != [] ==> Pending(s) || (s.pc == TxLoop && !s.full))
  }

  lemma MovedOne(m: seq<Moved>, x: Moved)
    ensures Through(m + [x]) == Through(m) + [x.byte]
    ensures Kept(m + [x]) == Kept(m) + if x.kept then [x.byte] else []
    ensures Drops(m + [x]) == Drops(m) + if x.kept then 0 else 1
  {
    assert (m + [x])[..|m|] == m;
  }

  lemma TaskletStepConserves(s: State)
    requires Conserved(s)
    ensures Conserved(TaskletStep(s))
  {
    hide Through, Kept;
    if s.pc == RxLoop && s.full {
      MovedOne(s.moved, Moved(s.port, |s.inFifo| < FIFO_SIZE));
      assert s.read + (s.inFifo + [s.port]) == s.read + s.inFifo + [s.port];
    } else if s.pc == TxLoop && !s.full && s.outFifo != [] {
      assert s.outFifo == [s.outFifo[0]] + s.outFifo[1..];
    }
  }

  lemma TaskletStepKeeps(s: State)
    requires Inv(s)
    ensures Inv(TaskletStep(s))
  {
    TaskletStepConserves(s);
    hide Conserved;
  }

  lemma StepKeeps(s: State, e: Event)
    requires Inv(s)
    ensures Inv(Step(s, e))
  {
    match e {
      case Write(bytes, _) =>
        var b := bytes[..Room(s, bytes)];
        assert Through(s.moved) + InPort(s) + s.outFifo + b == Through(s.moved) + InPort(s) + (s.outFifo + b);
      case Read(count) =>
        var n := Min(count, |s.inFifo|);
        assert s.read + s.inFifo[..n] + s.inFifo[n..] == s.read + s.inFifo;
      case Interrupt =>
      case Tasklet => TaskletStepKeeps(s);
    }
  }

  lemma StartIsOk()
    ensures Inv(START)
  {
  }

  lemma {:induction false} RunKeeps(s: State, events: seq<Event>)
    requires Inv(s)
    ensures Inv(Run(s, events))
    decreases |events|
  {
    if events != [] {
      RunKeeps(s, events[..|events| - 1]);
      StepKeeps(Run(s, events[..|events| - 1]), events[|events| - 1]);
    }
  }

  lemma {:induction false} DropCount(m: seq<Moved>)
    ensures |Through(m)| == |m| && |Kept(m)| + Drops(m) == |m|
    ensures Drops(m) == 0 ==> Kept(m) == Through(m)
  {
    if m != [] {
      DropCount(m[..|m| - 1]);
    }
  }

  /** a can be obtained from b by leaving bytes out. */
  ghost predicate Subsequence(a: seq<Byte>, b: seq<Byte>)
    decreases |b|
  {
    if b == [] then a == []
    else Subsequence(a, b[..|b| - 1]) ||
         (a != [] && a[|a| - 1] == b[|b| - 1] && Subsequence(a[..|a| - 1], b[..|b| - 1]))
  }

  lemma {:induction false} SubsequenceGrows(a: seq<Byte>, b: seq<Byte>, x: Byte)
    requires Subsequence(a, b)
    ensures Subsequence(a, b + [x]) && Subsequence(a + [x], b + [x])
  {
    assert (b + [x])[..|b|] == b && (a + [x])[..|a|] == a;
  }

  lemma {:induction false} KeptIsSubsequence(m: seq<Moved>)
    ensures Subsequence(Kept(m), Through(m))
  {
    if m != [] {
      KeptIsSubsequence(m[..|m| - 1]);
      SubsequenceGrows(Kept(m[..|m| - 1]), Through(m[..|m| - 1]), m[|m| - 1].byte);
      if !m[|m| - 1].kept {
        assert Kept(m[..|m| - 1]) + [] == Kept(m[..|m| - 1]);
      }
    }
  }

  lemma {:induction false} SubsequenceAppend(a: seq<Byte>, b: seq<Byte>, c: seq<Byte>)
    requires Subsequence(a, b)
    ensures Subsequence(a + c, b + c)
    decreases |c|
  {
    if c == [] {
      assert a + c == a && b + c == b;
    } else {
      var i, x := c[..|c| - 1], c[|c| - 1];
      SubsequenceAppend(a, b, i);
      SubsequenceGrows(a + i, b + i, x);
      assert a + i + [x] == a + c && b + i + [x] == b + c;
    }
  }

  /** The user's view: what was read, what can still be read and what is on the way. */
  function Delivered(s: State): seq<Byte> {
    s.read + s.inFifo + InPort(s) + s.outFifo
  }

  ghost predicate StreamOk(s: State) {
    && Subsequence(Delivered(s), s.accepted)
    && |Delivered(s)| + Drops(s.moved) == |s.accepted|
    && (Drops(s.moved) == 0 ==> Delivered(s) == s.accepted)
  }

  lemma InvGivesStream(s: State)
    requires Inv(s)
    ensures StreamOk(s)
  {
    hide Subsequence, Through, Kept, Drops;
    DropCount(s.moved);
    KeptIsSubsequence(s.moved);
    var rest := InPort(s) + s.outFifo;
    SubsequenceAppend(Kept(s.moved), Through(s.moved), rest);
    assert Delivered(s) == Kept(s.moved) + rest && s.accepted == Through(s.moved) + rest;
  }

  /** In every interleaving nothing is invented, duplicated or reordered: the delivered stream is the
      accepted one with the dropped bytes left out, and the accepted one itself if none was. */
  lemma StreamIsPreserved(events: seq<Event>)
    ensures StreamOk(Run(START, events))
  {
    hide Run;
    RunKeeps(START, events);
    InvGivesStream(Run(START, events));
  }

  // ---------------------------------------------------------------- when nothing is dropped

  /** Bytes accepted that are still somewhere in the driver. */
  function Outstanding(s: State): nat {
    |s.inFifo| + |InPort(s)| + |s.outFifo|
  }

  lemma StepDrops(s: State, e: Event)
    requires Inv(s)
    ensures Drops(Step(s, e).moved) == Drops(s.moved) ||
            (Drops(Step(s, e).moved) > Drops(s.moved) && Outstanding(s) > FIFO_SIZE)
    ensures !e.Write? ==> Outstanding(Step(s, e)) <= Outstanding(s)
  {
    if e.Tasklet? && s.pc == RxLoop && s.full {
      MovedOne(s.moved, Moved(s.port, |s.inFifo| < FIFO_SIZE));
    }
  }

  lemma {:induction false} RunTwice(s: State, first: seq<Event>, rest: seq<Event>)
    ensures Run(s, first + rest) == Run(Run(s, first), rest)
    decreases |rest|
  {
    hide Step;
    if rest == [] {
      assert first + rest == first;
    } else {
      var init, e := rest[..|rest| - 1], rest[|rest| - 1];
      RunTwice(s, first, init);
      assert first + rest == first + init + [e];
      assert (first + init + [e])[..|first + init|] == first + init;
    }
  }

  lemma RunOne(s: State, e: Event)
    ensures Run(s, [e]) == Step(s, e)
  {
    assert Run(s, [e][..0]) == s;
  }

  predicate NoWrites(events: seq<Event>) {
    forall i :: 0 <= i < |events| ==> !events[i].Write?
  }

  lemma {:induction false} RoomMeansNoDrops(s: State, rest: seq<Event>)
    requires Inv(s) && Outstanding(s) <= FIFO_SIZE && NoWrites(rest)
    ensures Drops(Run(s, rest).moved) == Drops(s.moved) && Outstanding(Run(s, rest)) <= FIFO_SIZE
    decreases |rest|
  {
    hide Inv, Step, Drops, Outstanding;
    if rest != [] {
      var init := rest[..|rest| - 1];
      RoomMeansNoDrops(s, init);
      RunKeeps(s, init);
      StepDrops(Run(s, init), rest[|rest| - 1]);
    }
  }

  /** What comes next when nobody reads or writes: the interrupt if the tasklet is not scheduled. */
  function Next(s: State): Event {
    if s.pc == Idle && !s.scheduled then Interrupt else Tasklet
  }

  /** Steps of Next before the next byte gets on. */
  function Distance(s: State): nat {
    if s.full then (if s.pc == TxLoop then 1 else 0)
    else match s.pc
      case RxLoop => 3
      case Idle => if s.scheduled then 1 else 2
      case TxLoop => 0
  }

  function Work(s: State): nat {
    3 * |s.outFifo| + if s.full then 2 else 0
  }

  /** A driver that holds more than in_fifo can take drops a byte now or comes closer to it. */
  lemma OverfullComesCloser(s: State)
    requires Inv(s) && Outstanding(s) > FIFO_SIZE
    ensures var r := Step(s, Next(s));
            || Drops(r.moved) > Drops(s.moved)
            || (&& Drops(r.moved) == Drops(s.moved) && Outstanding(r) == Outstanding(s)
                && (Work(r) < Work(s) || (Work(r) == Work(s) && Distance(r) < Distance(s))))
  {
    if s.pc == RxLoop && s.full {
      MovedOne(s.moved, Moved(s.port, |s.inFifo| < FIFO_SIZE));
    }
  }

  lemma {:induction false} LosingRun(s: State) returns (rest: seq<Event>)
    requires Inv(s) && Outstanding(s) > FIFO_SIZE
    ensures NoWrites(rest) && Drops(Run(s, rest).moved) > Drops(s.moved)
    decreases Work(s), Distance(s)
  {
    hide Inv, Outstanding, Drops, Step, Work, Distance;
    var e := Next(s);
    var r := Step(s, e);
    OverfullComesCloser(s);
    StepKeeps(s, e);
    RunOne(s, e);
    if Drops(r.moved) > Drops(s.moved) {
      rest := [e];
    } else {
      var more := LosingRun(r);
      rest := [e] + more;
      RunTwice(s, [e], more);
    }
  }

  /** From any state of the driver: whatever readers, interrupts and the tasklet do, no accepted byte
      is lost before the next write, exactly if what the driver holds fits into in_fifo. */
  lemma NoLossExactly(s: State)
    requires Inv(s)
    ensures (forall rest :: NoWrites(rest) ==> Drops(Run(s, rest).moved) == Drops(s.moved))
            <==> |s.inFifo| + |s.outFifo| + (if s.full then 1 else 0) <= 128
  {
    hide Inv, Drops, Run, NoWrites;
    if Outstanding(s) <= FIFO_SIZE {
      forall rest | NoWrites(rest) ensures Drops(Run(s, rest).moved) == Drops(s.moved) {
        RoomMeansNoDrops(s, rest);
      }
    } else {
      var rest := LosingRun(s);
    }
  }

  /** One byte more than in_fifo holds: a full out_fifo, and one more write when its first byte is in
      the port. */
  const OVERFILL := [Write(Zeros(FIFO_SIZE), false), Tasklet, Tasklet, Write([0], false)]

  lemma OverfillHolds()
    ensures Outstanding(Run(START, OVERFILL)) == FIFO_SIZE + 1
  {
    assert OVERFILL[..3][..2] == OVERFILL[..2] && OVERFILL[..2][..1] == OVERFILL[..1] && OVERFILL[..1][..0] == [];
    var s1 := Step(START, OVERFILL[0]);
    assert s1.outFifo == Zeros(FIFO_SIZE);
    var s2 := Step(s1, Tasklet);
    var s3 := Step(s2, Tasklet);
    assert Run(START, OVERFILL[..1]) == s1 && Run(START, OVERFILL[..2]) == s2 && Run(START, OVERFILL[..3]) == s3;
    assert |s3.outFifo| == FIFO_SIZE - 1 && s3.full && s3.inFifo == [];
  }

  /** A driver just loaded can lose a byte that write() has accepted. */
  lemma AcceptedByteCanBeLost()
    ensures exists rest :: NoWrites(rest) && Drops(Run(START, OVERFILL + rest).moved) > 0
  {
    hide Run, NoWrites;
    OverfillHolds();
    var rest := LosingContinuation(OVERFILL);
  }

  /** A writer that never lets more than one FIFO's worth of bytes be outstanding loses nothing,
      however the rest is interleaved. */
  lemma {:induction false} PacedWritesAreSafe(events: seq<Event>)
    requires Paced(events)
    ensures Drops(Run(START, events).moved) == 0 && Outstanding(Run(START, events)) <= FIFO_SIZE
    decreases |events|
  {
    if events != [] {
      var n := |events| - 1;
      var init := events[..n];
      PacedPrefix(events, n);
      PacedWritesAreSafe(init);
      StartIsOk();
      RunKeeps(START, init);
      StepDrops(Run(START, init), events[n]);
      assert events[..n + 1] == events;
    }
  }

  predicate Paced(events: seq<Event>) {
    forall i :: 0 <= i < |events| && events[i].Write? ==> Outstanding(Run(START, events[..i + 1])) <= FIFO_SIZE
  }

  lemma PacedPrefix(events: seq<Event>, n: nat)
    requires n <= |events| && Paced(events)
    ensures Paced(events[..n])
  {
    forall i | 0 <= i < n && events[..n][i].Write?
      ensures Outstanding(Run(START, events[..n][..i + 1])) <= FIFO_SIZE
    {
      assert events[i].Write? && events[..n][..i + 1] == events[..i + 1];
    }
  }

  lemma LosingContinuation(events: seq<Event>) returns (rest: seq<Event>)
    requires Outstanding(Run(START, events)) > FIFO_SIZE
    ensures NoWrites(rest) && Drops(Run(START, events + rest).moved) > 0
  {
    hide Run, Inv, NoWrites, Outstanding;
    StartIsOk();
    RunKeeps(START, events);
    rest := LosingRun(Run(START, events));
    RunTwice(START, events, rest);
  }

  lemma PacedContinuation(events: seq<Event>, rest: seq<Event>)
    requires Paced(events) && NoWrites(rest)
    ensures Drops(Run(START, events + rest).moved) == 0
  {
    StartIsOk();
    RunKeeps(START, events);
    hide Run, Inv, NoWrites, Outstanding;
    PacedWritesAreSafe(events);
    RoomMeansNoDrops(Run(START, events), rest);
    RunTwice(START, events, rest);
  }

  /** A sequence of requests loses nothing at any time, whatever readers, interrupts and the tasklet
      do until the next write, exactly if no write leaves more than one FIFO's worth outstanding. */
  lemma PacingExactly(events: seq<Event>)
    ensures (forall i, rest :: 0 <= i <= |events| && NoWrites(rest) ==>
               Drops(Run(START, events[..i] + rest).moved) == 0)
            <==> Paced(events)
  {
    hide Run, NoWrites, Outstanding;
    if Paced(events) {
      forall i, rest | 0 <= i <= |events| && NoWrites(rest)
        ensures Drops(Run(START, events[..i] + rest).moved) == 0
      {
        PacedPrefix(events, i);
        PacedContinuation(events[..i], rest);
      }
    } else {
      var i :| 0 <= i < |events| && events[i].Write? && Outstanding(Run(START, events[..i + 1])) > FIFO_SIZE;
      var rest := LosingContinuation(events[..i + 1]);
    }
  }

  /** A tasklet that has ended does nothing until it is scheduled again: readers and idle ticks leave
      the waiting bytes where they are. */
  lemma {:induction false} RestsUntilScheduled(s: State, events: seq<Event>)
    requires s.pc == Idle && !s.scheduled
    requires forall i :: 0 <= i < |events| ==> events[i].Read? || events[i].Tasklet?
    ensures var r := Run(s, events);
            && r.pc == Idle && !r.scheduled && r.outFifo == s.outFifo && r.moved == s.moved
            && r.read + r.inFifo == s.read + s.inFifo
    decreases |events|
  {
    if events != [] {
      var init := events[..|events| - 1];
      RestsUntilScheduled(s, init);
      var m := Run(s, init);
      if events[|events| - 1].Read? {
        var n := Min(events[|events| - 1].count, |m.inFifo|);
        assert m.read + m.inFifo[..n] + m.inFifo[n..] == m.read + m.inFifo;
      }
    }
  }

  // ---------------------------------------------------------------- draining

  /** The tasklet run to its end. */
  function Finished(s: State): (r: State)
    ensures r.pc == Idle
    decreases match s.pc
              case Idle => 0
              case RxLoop => if s.full then 2 else 1
              case TxLoop => if !s.full && s.outFifo != [] then 4 else 3
  {
    if s.pc == Idle then s else Finished(TaskletStep(s))
  }

  /** One round of what is pending: the interrupt, if any, then the tasklet, if scheduled. */
  function Round(s: State): State
    requires s.pc == Idle
  {
    var s1 := if s.irqPending then Interrupted(s) else s;
    Finished(TaskletStep(s1))
  }

  lemma TaskletRunMovesOne(s: State)
    requires s.pc == Idle && s.scheduled && !s.full && s.outFifo != []
    ensures var b, kept := s.outFifo[0], |s.inFifo| < FIFO_SIZE;
            Finished(TaskletStep(s)) ==
            s.(scheduled := false, irqPending := true, port := b, outFifo := s.outFifo[1..],
               inFifo := if kept then s.inFifo + [b] else s.inFifo, moved := s.moved + [Moved(b, kept)])
  {
    var s1 := TaskletStep(s);
    var s2 := TaskletStep(s1);
    var s3 := TaskletStep(s2);
    var s4 := TaskletStep(s3);
    var s5 := TaskletStep(s4);
    assert s1.pc == TxLoop && s2.pc == TxLoop && s3.pc == RxLoop && s4.pc == RxLoop && s5.pc == Idle;
    assert Finished(s1) == Finished(s2) == Finished(s3) == Finished(s4) == Finished(s5) == s5;
  }

  lemma RoundMovesOne(s: State)
    requires Inv(s) && s.pc == Idle && s.outFifo != []
    ensures var r := Round(s);
            var b, kept := s.outFifo[0], |s.inFifo| < FIFO_SIZE;
            && Inv(r) && r.pc == Idle && r.outFifo == s.outFifo[1..]
            && r.inFifo == (if kept then s.inFifo + [b] else s.inFifo)
            && r.moved == s.moved + [Moved(b, kept)] && r.read == s.read && r.accepted == s.accepted
  {
    hide Finished, TaskletStep, Through, Kept, Drops;
    var s1 := if s.irqPending then Interrupted(s) else s;
    TaskletRunMovesOne(s1);
    MovedOne(s.moved, Moved(s.outFifo[0], |s.inFifo| < FIFO_SIZE));
    assert s.outFifo == [s.outFifo[0]] + s.outFifo[1..];
  }

  function Rounds(s: State, n: nat): State
    requires s.pc == Idle
    decreases n
  {
    if n == 0 then s else Rounds(Round(s), n - 1)
  }

  /** With no new writes or reads, one round per waiting byte empties out_fifo. What fits into
      in_fifo is kept in order; exactly the excess over its capacity is dropped. */
  lemma {:induction false} Drains(s: State)
    requires Inv(s) && s.pc == Idle
    ensures var r := Rounds(s, |s.outFifo|);
            var fits := Min(|s.outFifo|, FIFO_SIZE - |s.inFifo|);
            && r.outFifo == [] && r.pc == Idle && Inv(r)
            && r.inFifo == s.inFifo + s.outFifo[..fits]
            && Drops(r.moved) - Drops(s.moved) == |s.outFifo| - fits
    decreases |s.outFifo|
  {
    hide Round, Inv;
    if s.outFifo == [] {
      InvBounds(s);
      assert s.inFifo + [] == s.inFifo;
    } else {
      InvBounds(s);
      RoundMovesOne(s);
      var q := Round(s);
      MovedOne(s.moved, Moved(s.outFifo[0], |s.inFifo| < FIFO_SIZE));
      Drains(q);
      var fits := Min(|s.outFifo|, FIFO_SIZE - |s.inFifo|);
      if fits > 0 {
        assert s.inFifo + s.outFifo[..fits] == s.inFifo + [s.outFifo[0]] + s.outFifo[1..][..fits - 1];
      } else {
        assert q.outFifo[..0] == s.outFifo[..0];
      }
    }
  }

  /** Bytes that have not got to in_fifo yet. */
  function Waiting(s: State): seq<Byte> {
    InPort(s) + s.outFifo
  }

  /** How many of n bytes fit behind `held`. */
  function Fits(held: nat, n: nat): (f: nat)
    ensures f <= n
  {
    if held <= FIFO_SIZE then Min(n, FIFO_SIZE - held) else 0
  }

  /** What becomes of the waiting bytes if nobody reads or writes: in_fifo in the end, and drops in all. */
  function Fate(inFifo: seq<Byte>, waiting: seq<Byte>, drops: nat): (seq<Byte>, nat) {
    var fits := Fits(|inFifo|, |waiting|);
    (inFifo + waiting[..fits], drops + |waiting| - fits)
  }

  function FateOf(s: State): (seq<Byte>, nat) {
    Fate(s.inFifo, Waiting(s), Drops(s.moved))
  }

  lemma FateOfFirst(inFifo: seq<Byte>, b: Byte, rest: seq<Byte>, drops: nat)
    requires |inFifo| <= FIFO_SIZE
    ensures Fate(inFifo, [b] + rest, drops) ==
            if |inFifo| < FIFO_SIZE then Fate(inFifo + [b], rest, drops) else Fate(inFifo, rest, drops + 1)
  {
    if |inFifo| < FIFO_SIZE {
      var fits := Fits(|inFifo| + 1, |rest|);
      assert ([b] + rest)[..fits + 1] == [b] + rest[..fits];
      assert inFifo + ([b] + rest[..fits]) == inFifo + [b] + rest[..fits];
    } else {
      assert ([b] + rest)[..0] == rest[..0];
    }
  }

  lemma TaskletStepKeepsFate(s: State)
    requires Inv(s)
    ensures FateOf(TaskletStep(s)) == FateOf(s)
  {
    hide Inv, Through, Kept, Drops, Fate;
    InvBounds(s);
    if s.pc == RxLoop && s.full {
      MovedOne(s.moved, Moved(s.port, |s.inFifo| < FIFO_SIZE));
      FateOfFirst(s.inFifo, s.port, s.outFifo, Drops(s.moved));
      assert [] + s.outFifo == s.outFifo;
    } else if s.pc == TxLoop && !s.full && s.outFifo != [] {
      assert [] + s.outFifo == [s.outFifo[0]] + s.outFifo[1..];
    }
  }

  lemma {:induction false} FinishedKeepsFate(s: State)
    requires Inv(s)
    ensures Inv(Finished(s)) && FateOf(Finished(s)) == FateOf(s)
    decreases |ToTheEnd(s)|
  {
    hide Inv, FateOf, TaskletStep;
    if s.pc != Idle {
      TaskletStepKeeps(s);
      TaskletStepKeepsFate(s);
      FinishedKeepsFate(TaskletStep(s));
    }
  }

  /** From every state of the driver: the tasklet comes to its end, one round per byte then left
      empties out_fifo, and what waits in port and out_fifo is kept in order as far as it fits. */
  lemma DrainsFromAnywhere(s: State)
    requires Inv(s)
    ensures var f := Finished(s);
            var r := Rounds(f, |f.outFifo|);
            var fits := Min(|Waiting(s)|, FIFO_SIZE - |s.inFifo|);
            && r.pc == Idle && !r.full && r.outFifo == [] && Inv(r)
            && r.inFifo == s.inFifo + Waiting(s)[..fits]
            && Drops(r.moved) - Drops(s.moved) == |Waiting(s)| - fits
  {
    hide Rounds, Finished, Through, Kept, Drops;
    var f := Finished(s);
    FinishedKeepsFate(s);
    InvBounds(s);
    InvBounds(f);
    Drains(f);
    assert InPort(f) == [] && Waiting(f) == f.outFifo;
  }

  lemma StepFromIdle(s: State)
    requires s.pc == Idle && s.scheduled
    ensures TaskletStep(s) == s.(scheduled := false, pc := TxLoop)
  {
  }

  /** One iteration of the first loop, or its end. */
  lemma StepInTxLoop(s: State)
    requires s.pc == TxLoop
    ensures Finished(s) ==
            Finished(if !s.full && s.outFifo != []
                     then s.(port := s.outFifo[0], outFifo := s.outFifo[1..], full := true, irqPending := true)
                     else s.(pc := RxLoop))
  {
    assert Finished(s) == Finished(TaskletStep(s));
  }

  /** One iteration of the second loop, or its end. */
  lemma StepInRxLoop(s: State)
    requires s.pc == RxLoop
    ensures var kept := |s.inFifo| < FIFO_SIZE;
            if s.full
            then Finished(s) == Finished(s.(inFifo := if kept then s.inFifo + [s.port] else s.inFifo,
                                            moved := s.moved + [Moved(s.port, kept)], full := false))
            else Finished(s) == s.(pc := Idle)
  {
    assert Finished(s) == Finished(TaskletStep(s));
  }

  // ---------------------------------------------------------------- whole calls

  /** The iterations of a tasklet that nothing interrupts. */
  function ToTheEnd(s: State): seq<Event>
    decreases match s.pc
              case Idle => 0
              case RxLoop => if s.full then 2 else 1
              case TxLoop => if !s.full && s.outFifo != [] then 4 else 3
  {
    if s.pc == Idle then [] else [Tasklet] + ToTheEnd(TaskletStep(s))
  }

  lemma {:induction false} ToTheEndFinishes(s: State)
    ensures Run(s, ToTheEnd(s)) == Finished(s)
    decreases |ToTheEnd(s)|
  {
    if s.pc != Idle {
      ToTheEndFinishes(TaskletStep(s));
      RunOne(s, Tasklet);
      RunTwice(s, [Tasklet], ToTheEnd(TaskletStep(s)));
    }
  }

  /** The steps behind one call into the driver; a scheduled tasklet runs to its end. */
  function StepsOf(s: State, e: Event): seq<Event> {
    if e.Tasklet? then (if s.scheduled then [Tasklet] + ToTheEnd(TaskletStep(s)) else []) else [e]
  }

  function AllSteps(s: State, calls: seq<Event>): seq<Event> {
    if calls == [] then []
    else
      var steps := AllSteps(s, calls[..|calls| - 1]);
      steps + StepsOf(Run(s, steps), calls[|calls| - 1])
  }

  lemma StepsOfTasklet(s: State)
    requires s.pc == Idle && s.scheduled
    ensures Run(s, StepsOf(s, Tasklet)) == Finished(TaskletStep(s))
  {
    var r := TaskletStep(s);
    ToTheEndFinishes(r);
    RunOne(s, Tasklet);
    RunTwice(s, [Tasklet], ToTheEnd(r));
  }

  lemma InvBounds(s: State)
    requires Inv(s)
    ensures |s.inFifo| <= FIFO_SIZE && |s.outFifo| <= FIFO_SIZE
  {
  }

  // ---------------------------------------------------------------- the driver

  datatype Result = Count(n: nat) | EAgain

  class Driver {
    var outFifo: seq<Byte>
    var inFifo: seq<Byte>
    var port: Byte
    var full: bool
    var scheduled: bool
    var irqPending: bool
    ghost var accepted: seq<Byte>
    ghost var consumed: seq<Byte>
    ghost var moved: seq<Moved>

    ghost function Abs(): State
      reads this
    {
      State(outFifo, inFifo, port, full, Idle, scheduled, irqPending, accepted, consumed, moved)
    }

    constructor ()
      ensures Abs() == START
    {
      outFifo, inFifo, port, full, scheduled, irqPending := [], [], 0, false, false, false;
      accepted, consumed, moved := [], [], [];
    }

    /** misc_loop_drv_write; with `waited` it comes from the wait or from a test that has passed, and
        other writers may have filled the FIFO again since. */
    method Write(buf: seq<Byte>, waited: bool) returns (r: Result)
      modifies this
      ensures Abs() == Written(old(Abs()), buf, waited)
      ensures r.Count? ==> r.n <= |buf| && scheduled && outFifo == old(outFifo) + buf[..r.n]
      ensures r.Count? ==> r.n == |buf| || |outFifo| >= 128
      ensures r.EAgain? <==> |old(outFifo)| >= 128 && !waited
      ensures r == if |old(outFifo)| >= FIFO_SIZE && !waited then EAgain else Count(Room(old(Abs()), buf))
    {
      if |outFifo| >= FIFO_SIZE && !waited {
        return EAgain;
      }
      var copied := if |outFifo| < FIFO_SIZE then Min(|buf|, FIFO_SIZE - |outFifo|) else 0;
      outFifo := outFifo + buf[..copied];
      accepted := accepted + buf[..copied];
      scheduled := true;
      return Count(copied);
    }

    /** misc_loop_drv_read, `waited` likewise. */
    method Read(count: nat, waited: bool) returns (r: Result, data: seq<Byte>)
      modifies this
      ensures Abs() == WasRead(old(Abs()), count)
      ensures r == if old(inFifo) == [] && !waited then EAgain else Count(|data|)
      ensures data + inFifo == old(inFifo) && |data| == Min(count, |old(inFifo)|)
    {
      if inFifo == [] && !waited {
        return EAgain, [];
      }
      var copied := Min(count, |inFifo|);
      data := inFifo[..copied];
      inFifo := inFifo[copied..];
      consumed := consumed + data;
      return Count(copied), data;
    }

    method Isr()
      modifies this
      ensures Abs() == Interrupted(old(Abs()))
    {
      irqPending, scheduled := false, true;
    }

    /** misc_loop_drv_tasklet_func, run without interruption. */
    method TaskletFunc()
      requires scheduled
      modifies this
      ensures Abs() == Finished(TaskletStep(old(Abs())))
    {
      hide Finished, TaskletStep;
      ghost var s0 := TaskletStep(Abs());
      StepFromIdle(Abs());
      scheduled := false;
      while !full && outFifo != []
        invariant Finished(Abs().(pc := TxLoop)) == Finished(s0)
        decreases !full, |outFifo|
      {
        ghost var before := Abs().(pc := TxLoop);
        var dataOut := outFifo[0];
        outFifo := outFifo[1..];
        port := dataOut;
        full := true;
        irqPending := true;
        StepInTxLoop(before);
      }
      StepInTxLoop(Abs().(pc := TxLoop));
      while full
        invariant Finished(Abs().(pc := RxLoop)) == Finished(s0)
        decreases full
      {
        ghost var before := Abs().(pc := RxLoop);
        var dataIn := port;
        ghost var kept := |inFifo| < FIFO_SIZE;
        if |inFifo| < FIFO_SIZE {
          inFifo := inFifo + [dataIn];
        }
        moved := moved + [Moved(dataIn, kept)];
        full := false;
        StepInRxLoop(before);
      }
      StepInRxLoop(Abs().(pc := RxLoop));
    }

    /** Any sequence of calls is a run of the steps, and keeps in memory what runs keep. */
    method Calls(calls: seq<Event>)
      requires Inv(Abs())
      modifies this
      ensures Abs() == Run(old(Abs()), AllSteps(old(Abs()), calls))
      ensures Inv(Abs()) && StreamOk(Abs())
    {
      hide Inv, StreamOk, TaskletStep, Finished;
      ghost var s0 := Abs();
      for i := 0 to |calls|
        invariant Abs() == Run(s0, AllSteps(s0, calls[..i]))
      {
        assert calls[..i + 1][..i] == calls[..i];
        ghost var s := Abs();
        RunTwice(s0, AllSteps(s0, calls[..i]), StepsOf(s, calls[i]));
        Call(calls[i]);
      }
      assert calls[..|calls|] == calls;
      RunKeeps(s0, AllSteps(s0, calls));
      InvGivesStream(Abs());
    }

    method Call(e: Event)
      modifies this
      ensures Abs() == Run(old(Abs()), StepsOf(old(Abs()), e))
    {
      ghost var s := Abs();
      RunOne(s, e);
      match e {
        case Write(bytes, waited) => var _ := Write(bytes, waited);
        case Read(count) => var _, _ := Read(count, false);
        case Interrupt => Isr();
        case Tasklet =>
          if scheduled {
            StepsOfTasklet(s);
            TaskletFunc();
          }
      }
    }
  }
}
