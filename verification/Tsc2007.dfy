/** The TSC2007 touchscreen driver (tsc2007.c): a pen interrupt starts a polling timer, the timer
    samples the controller and reports to the input layer until the pen is up again. Words are 16
    bits wide and the pressure arithmetic wraps at 32 bits. */
module Tsc2007 {
  import opened Arith

  type U16 = x: int | 0 <= x < 0x10000

  const MAX_12BIT := 4095

  /** One SMBus word transfer: the raw word, or an error number. */
  datatype Xfer = Data(raw: U16) | Error(errno: nat)

  predicate XferOk(t: Xfer) {
    t.Error? ==> 1 <= t.errno <= 4095
  }

  /** Swaps the bytes of a word and drops the four dummy bits. */
  function Decoded(raw: U16): U16 {
    (raw % 256 * 256 + raw / 256) / 16
  }

  /** What tsc2007_xfer's result becomes in a u16 field; errors are stored like samples. */
  function Stored(t: Xfer): U16
    requires XferOk(t)
  {
    match t
    case Data(raw) => Decoded(raw)
    case Error(errno) => 0x10000 - errno
  }

  /** How the controller sends a 12-bit sample: D11-D4 in the low byte of the word, D3-D0 and four dummy
      bits in the high byte. */
  function OnWire(v: nat, dummy: nat): U16
    requires v <= MAX_12BIT && dummy < 16
  {
    v / 16 + (v % 16 * 16 + dummy) * 256
  }

  /** The driver stores the sample that the controller sent. */
  lemma SampleRoundTrip(v: nat, dummy: nat)
    requires v <= MAX_12BIT && dummy < 16
    ensures Stored(Data(OnWire(v, dummy))) == v
  {
    var lo, hi := v / 16, v % 16 * 16 + dummy;
    assert OnWire(v, dummy) % 256 == lo && OnWire(v, dummy) / 256 == hi;
    assert lo * 256 + hi == v * 16 + dummy;
  }

  lemma StoredInRangeExactly(t: Xfer)
    requires XferOk(t)
    ensures Stored(t) <= MAX_12BIT <==> t.Data?
    ensures t.Error? ==> Stored(t) as int + t.errno == 0x10000
  {
    if t.Data? {
      var w := t.raw % 256 * 256 + t.raw / 256;
      assert w < 0x10000;
    }
  }

  datatype Sample = Sample(x: U16, y: U16, z1: U16, z2: U16)

  /** The four transfers of one measurement, in bus order. */
  datatype Measurement = Measurement(y: Xfer, x: Xfer, z1: Xfer, z2: Xfer)

  predicate MeasurementOk(m: Measurement) {
    XferOk(m.x) && XferOk(m.y) && XferOk(m.z1) && XferOk(m.z2)
  }

  predicate Clean(m: Measurement) {
    m.x.Data? && m.y.Data? && m.z1.Data? && m.z2.Data?
  }

  function Taken(m: Measurement): Sample
    requires MeasurementOk(m)
  {
    Sample(Stored(m.x), Stored(m.y), Stored(m.z1), Stored(m.z2))
  }

  function U32(x: int): (r: nat)
    ensures r < 0x1_0000_0000 && (0 <= x < 0x1_0000_0000 ==> r == x)
  {
    x % 0x1_0000_0000
  }

  /** Full-scale X counts as no sample. */
  function FilteredX(s: Sample): U16 {
    if s.x == MAX_12BIT then 0 else s.x
  }

  /** Touch resistance in 32-bit arithmetic. */
  function Resistance(s: Sample, ohms: U16): nat {
    var x := FilteredX(s);
    if x == 0 || s.z1 == 0 then 0
    else
      var product := U32(U32(U32(s.z2 - s.z1) * x) * ohms);
      U32(product / s.z1 + 2047) / 4096
  }

  /** The same without any limit on the width of numbers. */
  function TrueResistance(s: Sample, ohms: U16): int
    requires s.z1 > 0
  {
    ((s.z2 as int - s.z1 as int) * FilteredX(s) as int * ohms as int / s.z1 as int + 2047) / 4096
  }

  /** A sample the controller can deliver when the pen is down. */
  predicate Plausible(s: Sample) {
    s.x <= MAX_12BIT && 0 < s.z1 <= s.z2 <= MAX_12BIT
  }

  lemma ProductBound(a: nat, b: nat, c: nat)
    requires a <= 4094 && b <= 4094 && c <= 256
    ensures a * b <= 4094 * 4094 && a * b * c <= 4094 * 4094 * 256
  {
    MulMono(a, 4094, b);
    var ab := a * b;
    MulMono(ab, 4094 * 4094, c);
  }

  lemma NoWrap(s: Sample, ohms: U16)
    requires Plausible(s) && ohms <= 256
    ensures Resistance(s, ohms) == TrueResistance(s, ohms)
  {
    var a: nat, x: nat, z: nat := s.z2 as int - s.z1 as int, FilteredX(s) as int, s.z1 as int;
    hide U32;
    ProductFits(a, x, ohms);
    QuotientFits(a * x * ohms, z);
  }

  lemma ProductFits(a: nat, x: nat, ohms: nat)
    requires a <= 4094 && x <= 4094 && ohms <= 256
    ensures U32(U32(U32(a) * x) * ohms) == a * x * ohms <= 4094 * 4094 * 256
    ensures x == 0 ==> a * x * ohms == 0
  {
    hide U32;
    ProductBound(a, x, ohms);
  }

  lemma QuotientFits(p: nat, z: nat)
    requires p <= 4094 * 4094 * 256 && z > 0
    ensures U32(p / z + 2047) == p / z + 2047
    ensures p == 0 ==> p / z == 0
  {
    QuotientBound(p, z);
    assert Quot(p, z) == p / z;
    hide U32;
  }

  /** The 32-bit formula gives the true resistance for every plausible sample exactly for plates of
      at most 256 ohms. */
  lemma ResistanceExactly(ohms: U16)
    ensures (forall s :: Plausible(s) ==> Resistance(s, ohms) == TrueResistance(s, ohms)) <==> ohms <= 256
  {
    if ohms <= 256 {
      forall s | Plausible(s)
        ensures Resistance(s, ohms) == TrueResistance(s, ohms)
      {
        NoWrap(s, ohms);
      }
    } else {
      var s := Sample(4094, 0, 1, 4095);
      assert Plausible(s) && FilteredX(s) == 4094;
      assert TrueResistance(s, ohms) == (4094 * 4094 * ohms as int + 2047) / 4096 >= 0x10_0000;
      assert Resistance(s, ohms) < 0x10_0000;
    }
  }

  // ---------------------------------------------------------------- reports

  datatype Report = Touch(down: bool) | AbsX(v: int) | AbsY(v: int) | Pressure(v: int) | Sync

  datatype Ts = Ts(tc: Sample, pendown: bool, irqEnabled: bool, timerArmed: bool, trace: seq<Report>)

  function Point(s: Sample, rt: nat): seq<Report> {
    [AbsX(FilteredX(s)), AbsY(s.y), Pressure(rt), Sync]
  }

  /** tsc2007_send_event */
  function Sent(t: Ts, ohms: U16): Ts {
    var rt := Resistance(t.tc, ohms);
    var reports := if 0 < rt <= MAX_12BIT
                   then (if t.pendown then [] else [Touch(true)]) + Point(t.tc, rt) else [];
    t.(pendown := t.pendown || 0 < rt <= MAX_12BIT, timerArmed := true, trace := t.trace + reports)
  }

  /** tsc2007_timer: the expired timer is no longer armed; pen is the level of the pen signal. */
  function TimerExpired(t: Ts, pen: bool, m: Measurement, ohms: U16): Ts
    requires MeasurementOk(m)
  {
    var t1 := t.(timerArmed := false);
    if !pen && t.pendown then
      t1.(pendown := false, irqEnabled := true, trace := t.trace + [Touch(false), Pressure(0), Sync])
    else Sent(t1.(tc := Taken(m)), ohms)
  }

  /** tsc2007_irq */
  function PenInterrupt(t: Ts, pen: bool): Ts {
    if pen then t.(irqEnabled := false, timerArmed := true) else t
  }

  // ---------------------------------------------------------------- runs

  datatype Event = Irq(pen: bool) | Timer(pen: bool, m: Measurement)

  predicate EventOk(e: Event) {
    e.Timer? ==> MeasurementOk(e.m)
  }

  /** Interrupts come only while enabled, timer expiries only while armed. */
  function Step(t: Ts, e: Event, ohms: U16): Ts
    requires EventOk(e)
  {
    match e
    case Irq(pen) => if t.irqEnabled then PenInterrupt(t, pen) else t
    case Timer(pen, m) => if t.timerArmed then TimerExpired(t, pen, m, ohms) else t
  }

  function Run(t: Ts, events: seq<Event>, ohms: U16): Ts
    requires forall e :: e in events ==> EventOk(e)
  {
    if events == [] then t
    else Step(Run(t, events[..|events| - 1], ohms), events[|events| - 1], ohms)
  }

  const PROBED := Ts(Sample(0, 0, 0, 0), false, true, false, [])

  // ---------------------------------------------------------------- what a trace may look like

  datatype Pen = Up | Down | Broken

  /** The input layer's view of the pen. Touch reports must alternate, starting with a press, and
      positions may only come while the pen is down. */
  function After(p: Pen, r: Report): Pen {
    match r
    case Touch(down) => if down && p == Up then Down else if !down && p == Down then Up else Broken
    case AbsX(_) => if p == Down then Down else Broken
    case AbsY(_) => if p == Down then Down else Broken
    case Pressure(v) => if p == Down || v == 0 then p else Broken
    case Sync => p
  }

  function AfterAll(p: Pen, trace: seq<Report>): Pen {
    if trace == [] then p else After(AfterAll(p, trace[..|trace| - 1]), trace[|trace| - 1])
  }

  lemma {:induction false} AfterConcat(p: Pen, a: seq<Report>, b: seq<Report>)
    ensures AfterAll(p, a + b) == AfterAll(AfterAll(p, a), b)
    decreases |b|
  {
    if b == [] {
      assert a + b == a;
    } else {
      assert (a + b)[..|a + b| - 1] == a + b[..|b| - 1];
      AfterConcat(p, a, b[..|b| - 1]);
    }
  }

  /** The key reports of a trace. */
  function Touches(trace: seq<Report>): seq<bool> {
    if trace == [] then []
    else
      var r := trace[|trace| - 1];
      Touches(trace[..|trace| - 1]) + if r.Touch? then [r.down] else []
  }

  /** Seen from outside: a trace that is not broken has key reports 1, 0, 1, 0, ... */
  lemma {:induction false} TouchesAlternate(trace: seq<Report>)
    requires AfterAll(Up, trace) != Broken
    ensures forall i :: 0 <= i < |Touches(trace)| ==> Touches(trace)[i] == (i % 2 == 0)
    ensures AfterAll(Up, trace) == Down <==> |Touches(trace)| % 2 == 1
    decreases |trace|
  {
    if trace != [] {
      BrokenStays(trace);
      TouchesAlternate(trace[..|trace| - 1]);
    }
  }

  lemma BrokenStays(trace: seq<Report>)
    requires trace != [] && AfterAll(Up, trace) != Broken
    ensures AfterAll(Up, trace[..|trace| - 1]) != Broken
  {
  }

  predicate InRange(r: Report) {
    r.AbsX? || r.AbsY? || r.Pressure? ==> 0 <= r.v <= MAX_12BIT
  }

  // ---------------------------------------------------------------- invariant

  ghost predicate Inv(t: Ts) {
    && t.irqEnabled == !t.timerArmed
    && (t.irqEnabled ==> !t.pendown)
    && AfterAll(Up, t.trace) == if t.pendown then Down else Up
  }

  lemma PointTrace(p: Pen, s: Sample, rt: nat, press: bool)
    requires p == if press then Up else Down
    ensures AfterAll(p, (if press then [Touch(true)] else []) + Point(s, rt)) == Down
  {
    var a, b, c, d := AbsX(FilteredX(s)), AbsY(s.y), Pressure(rt), Sync;
    var q := Point(s, rt);
    assert AfterAll(Down, q[..0]) == Down && q[..1][..0] == q[..0];
    assert AfterAll(Down, q[..1]) == Down && q[..2][..1] == q[..1];
    assert AfterAll(Down, q[..2]) == Down && q[..3][..2] == q[..2];
    assert AfterAll(Down, q[..3]) == Down && q[..4][..3] == q[..3] && q[..4] == q;
    assert AfterAll(Down, q) == Down;
    if press {
      assert [Touch(true)][..0] == [];
      assert AfterAll(Up, [Touch(true)]) == After(AfterAll(Up, []), Touch(true)) == Down;
      AfterConcat(Up, [Touch(true)], q);
    } else {
      assert [] + q == q;
    }
  }

  lemma SentKeeps(t: Ts, ohms: U16)
    requires AfterAll(Up, t.trace) == (if t.pendown then Down else Up) && !t.irqEnabled
    ensures Inv(Sent(t, ohms))
  {
    hide Resistance, FilteredX, Point;
    var rt := Resistance(t.tc, ohms);
    if 0 < rt <= MAX_12BIT {
      PointTrace(if t.pendown then Down else Up, t.tc, rt, !t.pendown);
      AfterConcat(Up, t.trace, (if t.pendown then [] else [Touch(true)]) + Point(t.tc, rt));
    } else {
      assert t.trace + [] == t.trace;
    }
  }

  lemma ReleaseTrace()
    ensures AfterAll(Down, [Touch(false), Pressure(0), Sync]) == Up
  {
    var q := [Touch(false), Pressure(0), Sync];
    assert q[..1][..0] == [] && q[..2][..1] == q[..1] && q[..3][..2] == q[..2] && q[..3] == q;
    assert AfterAll(Down, []) == Down;
    assert AfterAll(Down, q[..1]) == Up;
    assert AfterAll(Down, q[..2]) == Up;
  }

  lemma StepKeeps(t: Ts, e: Event, ohms: U16)
    requires Inv(t) && EventOk(e)
    ensures Inv(Step(t, e, ohms))
  {
    if e.Timer? && t.timerArmed {
      if !e.pen && t.pendown {
        ReleaseTrace();
        AfterConcat(Up, t.trace, [Touch(false), Pressure(0), Sync]);
      } else {
        SentKeeps(t.(timerArmed := false, tc := Taken(e.m)), ohms);
      }
    }
  }

  lemma {:induction false} RunKeepsFrom(t: Ts, events: seq<Event>, ohms: U16)
    requires Inv(t) && forall e :: e in events ==> EventOk(e)
    ensures Inv(Run(t, events, ohms))
    decreases |events|
  {
    if events != [] {
      RunKeepsFrom(t, events[..|events| - 1], ohms);
      StepKeeps(Run(t, events[..|events| - 1], ohms), events[|events| - 1], ohms);
    }
  }

  /** In every run exactly one of "pen interrupt enabled" and "timer armed" holds, the key reports
      alternate and agree with pendown, and positions come only while the pen is down. */
  lemma RunKeeps(events: seq<Event>, ohms: U16)
    requires forall e :: e in events ==> EventOk(e)
    ensures Inv(Run(PROBED, events, ohms))
  {
    RunKeepsFrom(PROBED, events, ohms);
  }

  // ---------------------------------------------------------------- ranges

  /** A reported point is in range exactly when its X and Y transfers succeeded; the pressure always is. */
  lemma PointInRangeExactly(m: Measurement, ohms: U16)
    requires MeasurementOk(m) && 0 < Resistance(Taken(m), ohms) <= MAX_12BIT
    ensures (forall r :: r in Point(Taken(m), Resistance(Taken(m), ohms)) ==> InRange(r)) <==> m.x.Data? && m.y.Data?
  {
    var s, rt := Taken(m), Resistance(Taken(m), ohms);
    var q := Point(s, rt);
    StoredInRangeExactly(m.x);
    StoredInRangeExactly(m.y);
    hide Stored, Resistance;
    assert q[0] == AbsX(FilteredX(s)) && q[1] == AbsY(s.y) && q[2] == Pressure(rt) && q[3] == Sync;
    assert q[0] in q && q[1] in q;
    if m.x.Data? && m.y.Data? {
      forall r | r in q
        ensures InRange(r)
      {
        assert r == q[0] || r == q[1] || r == q[2] || r == q[3];
      }
    }
  }

  /** Without bus errors every report of every run is in range. */
  lemma {:induction false} RunInRange(events: seq<Event>, ohms: U16)
    requires forall e :: e in events ==> EventOk(e) && (e.Timer? ==> Clean(e.m))
    ensures forall r :: r in Run(PROBED, events, ohms).trace ==> InRange(r)
    decreases |events|
  {
    hide Resistance, Stored, Point;
    if events != [] {
      var e := events[|events| - 1];
      RunInRange(events[..|events| - 1], ohms);
      if e.Timer? {
        var rt := Resistance(Taken(e.m), ohms);
        if 0 < rt <= MAX_12BIT {
          PointInRangeExactly(e.m, ohms);
        }
      }
    }
  }

  /** An expiry whose sample would be reported. */
  predicate Valid(e: Event, ohms: U16)
    requires EventOk(e)
  {
    e.Timer? && 0 < Resistance(Taken(e.m), ohms) <= MAX_12BIT
  }

  /** The controller has delivered a valid sample. */
  predicate Sampled(events: seq<Event>, ohms: U16)
    requires forall e :: e in events ==> EventOk(e)
  {
    events != [] && (Sampled(events[..|events| - 1], ohms) || Valid(events[|events| - 1], ohms))
  }

  /** An expiry has found the pen up after it was reported down. */
  predicate Lifted(down: bool, events: seq<Event>, ohms: U16)
    requires forall e :: e in events ==> EventOk(e)
  {
    events != [] &&
    var init, last := events[..|events| - 1], events[|events| - 1];
    Lifted(down, init, ohms) || (last.Timer? && !last.pen && (down || Sampled(init, ohms)))
  }

  /** The timer is armed after every event. */
  predicate KeepsPolling(t: Ts, events: seq<Event>, ohms: U16)
    requires forall e :: e in events ==> EventOk(e)
  {
    Run(t, events, ohms).timerArmed && (events == [] || KeepsPolling(t, events[..|events| - 1], ohms))
  }

  lemma PollingStep(t: Ts, e: Event, ohms: U16)
    requires Inv(t) && t.timerArmed && EventOk(e)
    ensures Step(t, e, ohms).timerArmed <==> !(e.Timer? && !e.pen && t.pendown)
    ensures Step(t, e, ohms).timerArmed ==>
              Step(t, e, ohms).pendown == (t.pendown || Valid(e, ohms))
  {
    hide Resistance, Point, Stored;
  }

  /** Once started, polling goes on exactly until the pen is found up after a valid sample, in terms of
      pen levels and samples alone. A pen lifted before the first valid sample is polled on until
      noise gives one. */
  lemma {:induction false} PollingLastsExactly(t: Ts, events: seq<Event>, ohms: U16)
    requires Inv(t) && t.timerArmed && forall e :: e in events ==> EventOk(e)
    ensures KeepsPolling(t, events, ohms) <==> !Lifted(t.pendown, events, ohms)
    ensures KeepsPolling(t, events, ohms) ==>
              Run(t, events, ohms).pendown == (t.pendown || Sampled(events, ohms))
    decreases |events|
  {
    hide Step, Inv, Valid;
    if events != [] {
      var init := events[..|events| - 1];
      PollingLastsExactly(t, init, ohms);
      if KeepsPolling(t, init, ohms) {
        RunKeepsFrom(t, init, ohms);
        PollingStep(Run(t, init, ohms), events[|events| - 1], ohms);
      }
    }
  }

  /** The transfers of a measurement of x, y, z1 and z2. */
  function Measured(x: nat, y: nat, z1: nat, z2: nat, dummy: nat): Measurement
    requires x <= MAX_12BIT && y <= MAX_12BIT && z1 <= MAX_12BIT && z2 <= MAX_12BIT && dummy < 16
  {
    Measurement(Data(OnWire(y, dummy)), Data(OnWire(x, dummy)), Data(OnWire(z1, dummy)), Data(OnWire(z2, dummy)))
  }

  /** End to end, for plates up to 256 ohms: with the pen down, an expiry reports the position the
      controller measured and the pressure of equation 1, announcing the touch if it is the first;
      if that pressure is not a 12-bit number, or X is zero or full scale, it reports nothing. */
  lemma ReportsWhatWasMeasured(t: Ts, x: nat, y: nat, z1: nat, z2: nat, dummy: nat, ohms: U16)
    requires x <= MAX_12BIT && y <= MAX_12BIT && 0 < z1 <= z2 <= MAX_12BIT && dummy < 16 && ohms <= 256
    ensures var t' := TimerExpired(t, true, Measured(x, y, z1, z2, dummy), ohms);
            var rt := ((z2 - z1) * x * ohms / z1 + 2047) / 4096;
            t'.trace == t.trace +
              if 0 < x < 4095 && 0 < rt <= 4095
              then (if t.pendown then [] else [Touch(true)]) + [AbsX(x), AbsY(y), Pressure(rt), Sync]
              else []
  {
    SampleRoundTrip(x, dummy);
    SampleRoundTrip(y, dummy);
    SampleRoundTrip(z1, dummy);
    SampleRoundTrip(z2, dummy);
    var s := Sample(x, y, z1, z2);
    assert Taken(Measured(x, y, z1, z2, dummy)) == s;
    NoWrap(s, ohms);
    hide Stored, OnWire;
    if 0 < x < 4095 {
      assert TrueResistance(s, ohms) == ((z2 - z1) * x * ohms / z1 + 2047) / 4096;
    } else {
      assert Resistance(s, ohms) == 0;
    }
  }

  /** The timer has not been started. */
  predicate StaysIdle(t: Ts, events: seq<Event>, ohms: U16)
    requires forall e :: e in events ==> EventOk(e)
  {
    !Run(t, events, ohms).timerArmed && (events == [] || StaysIdle(t, events[..|events| - 1], ohms))
  }

  predicate Pressed(events: seq<Event>) {
    exists i :: 0 <= i < |events| && events[i].Irq? && events[i].pen
  }

  /** The counterpart: from rest nothing happens exactly as long as no interrupt finds the pen down. */
  lemma {:induction false} PollingStartsExactly(t: Ts, events: seq<Event>, ohms: U16)
    requires Inv(t) && t.irqEnabled && forall e :: e in events ==> EventOk(e)
    ensures StaysIdle(t, events, ohms) <==> !Pressed(events)
    ensures StaysIdle(t, events, ohms) ==> Run(t, events, ohms) == t
    decreases |events|
  {
    if events != [] {
      var n := |events| - 1;
      var init, last := events[..n], events[n];
      PollingStartsExactly(t, init, ohms);
      if Pressed(init) {
        var i :| 0 <= i < n && init[i].Irq? && init[i].pen;
        assert events[i].Irq? && events[i].pen;
      } else if last.Irq? && last.pen {
        assert events[n].Irq? && events[n].pen;
      } else {
        forall i | 0 <= i < |events| ensures !(events[i].Irq? && events[i].pen) {
          assert i < n ==> events[i] == init[i];
        }
      }
    }
  }

  // ---------------------------------------------------------------- the driver

  class Touchscreen {
    var tc: Sample
    var pendown: bool
    var irqEnabled: bool
    var timerArmed: bool
    var trace: seq<Report>
    const ohms: U16

    constructor (ohms: U16)
      ensures Abs() == PROBED && this.ohms == ohms
    {
      tc, pendown, irqEnabled, timerArmed, trace := Sample(0, 0, 0, 0), false, true, false, [];
      this.ohms := ohms;
    }

    function Abs(): Ts
      reads this
    {
      Ts(tc, pendown, irqEnabled, timerArmed, trace)
    }

    method ReadValues(m: Measurement)
      requires MeasurementOk(m)
      modifies this`tc
      ensures tc == Taken(m)
    {
      tc := tc.(y := Stored(m.y));
      tc := tc.(x := Stored(m.x));
      tc := tc.(z1 := Stored(m.z1));
      tc := tc.(z2 := Stored(m.z2));
    }

    method SendEvent()
      modifies this`pendown, this`timerArmed, this`trace
      ensures Abs() == Sent(old(Abs()), ohms)
    {
      var x: int, y: int, z1: int, z2: int := tc.x, tc.y, tc.z1, tc.z2;
      if x == MAX_12BIT {
        x := 0;
      }
      var rt: nat;
      if x != 0 && z1 != 0 {
        rt := U32(z2 - z1);
        rt := U32(rt * x);
        rt := U32(rt * ohms);
        rt := rt / z1;
        rt := U32(rt + 2047) / 4096;
      } else {
        rt := 0;
      }
      assert rt == Resistance(tc, ohms);
      if rt > MAX_12BIT {
        timerArmed := true;
        assert trace + [] == trace;
        return;
      }
      if rt != 0 {
        if !pendown {
          trace := trace + [Touch(true)];
          pendown := true;
        }
        trace := trace + [AbsX(x)];
        trace := trace + [AbsY(y)];
        trace := trace + [Pressure(rt)];
        trace := trace + [Sync];
        assert trace == old(trace) + ((if old(pendown) then [] else [Touch(true)]) + Point(tc, rt));
      } else {
        assert trace + [] == trace;
      }
      timerArmed := true;
    }

    method OnTimer(pen: bool, m: Measurement)
      requires MeasurementOk(m)
      modifies this
      ensures Abs() == TimerExpired(old(Abs()), pen, m, ohms)
    {
      hide Resistance, Point, Stored;
      timerArmed := false;
      if !pen && pendown {
        trace := trace + [Touch(false)];
        trace := trace + [Pressure(0)];
        trace := trace + [Sync];
        assert trace == old(trace) + [Touch(false), Pressure(0), Sync];
        pendown := false;
        irqEnabled := true;
      } else {
        ReadValues(m);
        SendEvent();
      }
    }

    method OnIrq(pen: bool)
      modifies this
      ensures Abs() == PenInterrupt(old(Abs()), pen)
    {
      if pen {
        irqEnabled := false;
        timerArmed := true;
      }
    }

    /** Any sequence of interrupts and expiries, as far as they are enabled: the trace in memory never
        breaks the touch protocol. */
    method OnEvents(events: seq<Event>)
      requires Inv(Abs()) && forall e :: e in events ==> EventOk(e)
      modifies this
      ensures Abs() == Run(old(Abs()), events, ohms) && Inv(Abs())
      ensures forall i :: 0 <= i < |Touches(trace)| ==> Touches(trace)[i] == (i % 2 == 0)
    {
      hide Inv, TimerExpired, PenInterrupt;
      ghost var t := Abs();
      for i := 0 to |events|
        invariant Abs() == Run(t, events[..i], ohms)
      {
        assert events[..i + 1][..i] == events[..i];
        assert EventOk(events[i]);
        match events[i] {
          case Irq(pen) => if irqEnabled { OnIrq(pen); }
          case Timer(pen, m) => if timerArmed { OnTimer(pen, m); }
        }
      }
      assert events[..|events|] == events;
      RunKeepsFrom(t, events, ohms);
      InvUnbroken(Abs());
      TouchesAlternate(trace);
    }
  }

  lemma InvUnbroken(t: Ts)
    requires Inv(t)
    ensures AfterAll(Up, t.trace) != Broken
  {
  }
}
