/** The two snull interfaces as a state machine over values: one step per driver entry point
    (net/snull/snull.c). A packet's identity is not visible here, only how many a device has
    in its pool and which frames sit in a receive queue; module Snull supplies the lists. */
module SnullNet {
  import opened Bytes
  import opened SnullFrames

  /** The status word: SNULL_RX_INTR and SNULL_TX_INTR. */
  datatype Status = Status(rx: bool, tx: bool)

  const IDLE := Status(false, false)

  datatype Stats = Stats(txPackets: nat, txBytes: nat, rxPackets: nat, rxBytes: nat, rxDropped: nat)

  /** A frame taken from the receive queue: handed to the stack, or dropped for lack of memory. */
  datatype Arrival = Arrival(frame: Frame, delivered: bool)

  datatype Dev = Dev(
    free: nat,            // packets in ppool
    queue: seq<Frame>,    // rx_queue, head (newest) first
    status: Status,
    rxInt: bool,
    scheduled: bool,      // a NAPI poll is pending
    stopped: bool,        // netif_queue_stopped
    txLen: nat,
    stats: Stats,
    sent: seq<Frame>,     // frames put on the medium
    log: seq<Arrival>)

  datatype Net = Net(napi: bool, a: Dev, b: Dev) {
    function Near(onA: bool): Dev { if onA then a else b }
    function Far(onA: bool): Dev { if onA then b else a }
    function With(onA: bool, near: Dev, far: Dev): Net {
      if onA then Net(napi, near, far) else Net(napi, far, near)
    }
  }

  /** What the kernel may ask of the driver. Memory allocation outcomes are part of the event. */
  datatype Event =
    | Tx(onA: bool, skb: Frame, ok: bool)
    | Irq(onA: bool, ok: bool)
    | Poll(onA: bool, budget: int, alloc: seq<bool>)

  datatype Outcome = Live(net: Net) | NullDereference

  // ---------------------------------------------------------------- driver functions

  /** Outcome of the k-th allocation of a poll. */
  predicate Allocates(alloc: seq<bool>, k: nat) {
    k < |alloc| ==> alloc[k]
  }

  function GetTx(d: Dev): Dev
    requires d.free > 0
  {
    d.(free := d.free - 1, stopped := d.stopped || d.free == 1)
  }

  function Release(d: Dev): Dev {
    d.(free := d.free + 1, stopped := d.stopped && d.free != 0)
  }

  function Received(d: Dev, f: Frame, ok: bool): Dev {
    var s := d.stats;
    d.(log := d.log + [Arrival(f, ok)],
       stats := if ok then s.(rxPackets := s.rxPackets + 1, rxBytes := s.rxBytes + |f|)
                else s.(rxDropped := s.rxDropped + 1))
  }

  function TxDone(d: Dev): Dev {
    d.(stats := d.stats.(txPackets := d.stats.txPackets + 1, txBytes := d.stats.txBytes + d.txLen))
  }

  function RegularInterrupt(d: Dev, t: Dev, ok: bool): (Dev, Dev) {
    var pop := d.status.rx && d.queue != [];
    var d0 := d.(status := IDLE);
    var d1 := if pop then Received(d0.(queue := d.queue[1..]), d.queue[0], ok) else d0;
    (if d.status.tx then TxDone(d1) else d1, if pop then Release(t) else t)
  }

  function NapiInterrupt(d: Dev): Dev {
    var d0 := d.(status := IDLE);
    var d1 := if d.status.rx then d0.(rxInt := false, scheduled := true) else d0;
    if d.status.tx then TxDone(d1) else d1
  }

  function Interrupt(napi: bool, d: Dev, t: Dev, ok: bool): (Dev, Dev) {
    if napi then (NapiInterrupt(d), t) else RegularInterrupt(d, t, ok)
  }

  /** snull_hw_tx once the frame f is ready: takes a packet of d, queues f on the twin t, simulates
      the twin's receive interrupt and then d's transmit interrupt. */
  function Transmit(napi: bool, d: Dev, t: Dev, f: Frame, ok: bool): (Dev, Dev)
    requires d.free > 0
  {
    var d1 := GetTx(d).(sent := d.sent + [f]);
    var t1 := t.(queue := [f] + t.queue);
    var (t2, d2) := if t1.rxInt then Interrupt(napi, t1.(status := t1.status.(rx := true)), d1, ok) else (t1, d1);
    Interrupt(napi, d2.(txLen := |f|, status := d2.status.(tx := true)), t2, ok)
  }

  /** The loop of snull_poll: n packets delivered and k allocations attempted so far. */
  function PollLoop(d: Dev, t: Dev, n: nat, budget: int, alloc: seq<bool>, k: nat): (Dev, Dev, nat)
    decreases |d.queue|
  {
    if n < budget && d.queue != [] then
      var ok := Allocates(alloc, k);
      PollLoop(Received(d.(queue := d.queue[1..]), d.queue[0], ok), Release(t),
               if ok then n + 1 else n, budget, alloc, k + 1)
    else
      (d, t, n)
  }

  function PollDone(d: Dev): Dev {
    if d.queue == [] then d.(scheduled := false, rxInt := true) else d
  }

  /** snull_poll, with the packet count it reports to the kernel. */
  function Polled(d: Dev, t: Dev, budget: int, alloc: seq<bool>): (Dev, Dev, nat) {
    var (d1, t1, n) := PollLoop(d, t, 0, budget, alloc, 0);
    (PollDone(d1), t1, if d1.queue == [] then 0 else n)
  }

  // ---------------------------------------------------------------- runs

  /** The kernel transmits only on a running queue and polls only a scheduled device. */
  predicate Enabled(n: Net, e: Event) {
    match e
    case Tx(onA, skb, _) => !n.Near(onA).stopped && |skb| <= ETH_DATA_LEN
    case Irq(_, _) => true
    case Poll(onA, _, _) => n.Near(onA).scheduled
  }

  function Step(n: Net, e: Event): Outcome {
    if !Enabled(n, e) then Live(n)
    else match e
      case Tx(onA, skb, ok) =>
        if n.Near(onA).free == 0 then NullDereference
        else
          var (d, t) := Transmit(n.napi, n.Near(onA), n.Far(onA), Wire(skb), ok);
          Live(n.With(onA, d, t))
      case Irq(onA, ok) =>
        var (d, t) := Interrupt(n.napi, n.Near(onA), n.Far(onA), ok);
        Live(n.With(onA, d, t))
      case Poll(onA, budget, alloc) =>
        var (d, t, _) := Polled(n.Near(onA), n.Far(onA), budget, alloc);
        Live(n.With(onA, d, t))
  }

  function Run(n: Net, events: seq<Event>): Outcome {
    if events == [] then Live(n)
    else
      var o := Run(n, events[..|events| - 1]);
      if o.Live? then Step(o.net, events[|events| - 1]) else o
  }

  function BootDev(packets: nat): Dev {
    Dev(packets, [], IDLE, true, false, false, 0, Stats(0, 0, 0, 0, 0), [], [])
  }

  function Boot(napi: bool, packetsA: nat, packetsB: nat): Net {
    Net(napi, BootDev(packetsA), BootDev(packetsB))
  }

  // ---------------------------------------------------------------- measures

  function Wires(sent: seq<Frame>): seq<Frame> {
    seq(|sent|, i requires 0 <= i < |sent| => Wire(sent[i]))
  }

  function Frames(log: seq<Arrival>): seq<Frame> {
    seq(|log|, i requires 0 <= i < |log| => log[i].frame)
  }

  function QueueBytes(q: seq<Frame>): nat {
    if q == [] then 0 else |q[0]| + QueueBytes(q[1..])
  }

  /** Number and total length of the arrivals that were (or were not) delivered. */
  function Count(log: seq<Arrival>, delivered: bool): nat {
    if log == [] then 0
    else Count(log[..|log| - 1], delivered) + if log[|log| - 1].delivered == delivered then 1 else 0
  }

  function LogBytes(log: seq<Arrival>, delivered: bool): nat {
    if log == [] then 0
    else LogBytes(log[..|log| - 1], delivered) +
         if log[|log| - 1].delivered == delivered then |log[|log| - 1].frame| else 0
  }

  /** What the stack above a device has been given, in order. */
  function Delivered(log: seq<Arrival>): seq<Frame> {
    if log == [] then []
    else Delivered(log[..|log| - 1]) + if log[|log| - 1].delivered then [log[|log| - 1].frame] else []
  }

  // ---------------------------------------------------------------- invariant

  /** One direction of traffic: tx transmits, rx receives; tx owns `packets` packets. */
  ghost predicate Link(tx: Dev, rx: Dev, packets: nat) {
    // every packet is in the owner's pool or in the twin's queue
    && tx.free + |rx.queue| == packets
    && (tx.stopped <==> tx.free == 0)
    // conservation of packets and bytes
    && tx.stats.txPackets == |tx.sent| == rx.stats.rxPackets + rx.stats.rxDropped + |rx.queue|
    && tx.stats.txBytes == rx.stats.rxBytes + LogBytes(rx.log, false) + QueueBytes(rx.queue)
    && rx.stats.rxPackets == Count(rx.log, true)
    && rx.stats.rxDropped == Count(rx.log, false)
    && rx.stats.rxBytes == LogBytes(rx.log, true)
    // conservation of contents
    && multiset(tx.sent) == multiset(Frames(rx.log)) + multiset(rx.queue)
  }

  ghost predicate Mode(napi: bool, d: Dev, t: Dev) {
    && d.status == IDLE
    && (!napi ==> d.rxInt && !d.scheduled && d.queue == [] && Frames(d.log) == t.sent)
    && (napi ==> d.scheduled == !d.rxInt && (d.queue != [] ==> d.scheduled))
  }

  ghost predicate Inv(n: Net, packetsA: nat, packetsB: nat) {
    && Link(n.a, n.b, packetsA) && Link(n.b, n.a, packetsB)
    && Mode(n.napi, n.a, n.b) && Mode(n.napi, n.b, n.a)
  }

  // ---------------------------------------------------------------- steps keep the invariant

  lemma ReceivedLog(d: Dev, f: Frame, ok: bool)
    ensures var e := Received(d, f, ok);
            && Frames(e.log) == Frames(d.log) + [f]
            && (forall b :: Count(e.log, b) == Count(d.log, b) + if ok == b then 1 else 0)
            && (forall b :: LogBytes(e.log, b) == LogBytes(d.log, b) + if ok == b then |f| else 0)
  {
    var e := Received(d, f, ok);
    assert e.log[..|e.log| - 1] == d.log;
  }

  /** Taking the head of rx's queue and giving its packet back to tx. */
  lemma ReceiveKeepsLink(tx: Dev, rx: Dev, packets: nat, ok: bool)
    requires Link(tx, rx, packets) && rx.queue != []
    ensures Link(Release(tx), Received(rx.(queue := rx.queue[1..]), rx.queue[0], ok), packets)
  {
    ReceivedLog(rx.(queue := rx.queue[1..]), rx.queue[0], ok);
    assert rx.queue == [rx.queue[0]] + rx.queue[1..];
  }

  /** A link depends only on the transmit side of tx and the receive side of rx. */
  predicate SameTxSide(d: Dev, e: Dev) {
    && d.free == e.free && d.stopped == e.stopped && d.sent == e.sent
    && d.stats.txPackets == e.stats.txPackets && d.stats.txBytes == e.stats.txBytes
  }

  predicate SameRxSide(d: Dev, e: Dev) {
    && d.queue == e.queue && d.log == e.log && d.stats.rxPackets == e.stats.rxPackets
    && d.stats.rxBytes == e.stats.rxBytes && d.stats.rxDropped == e.stats.rxDropped
  }

  lemma LinkDependsOn(tx: Dev, rx: Dev, tx': Dev, rx': Dev, packets: nat)
    requires Link(tx, rx, packets) && SameTxSide(tx, tx') && SameRxSide(rx, rx')
    ensures Link(tx', rx', packets)
  {
  }

  /** The transmit half of Transmit: the frame is on the twin's queue and counted as sent. */
  lemma SendKeepsLink(tx: Dev, rx: Dev, packets: nat, f: Frame)
    requires Link(tx, rx, packets) && tx.free > 0
    ensures Link(TxDone(GetTx(tx).(sent := tx.sent + [f], txLen := |f|)),
                 rx.(queue := [f] + rx.queue), packets)
  {
    assert ([f] + rx.queue)[1..] == rx.queue;
  }

  /** In regular mode the frame just queued is the one the twin's interrupt takes off again. */
  lemma TransmitRegular(d: Dev, t: Dev, f: Frame, ok: bool)
    requires d.free > 0 && Mode(false, d, t) && Mode(false, t, d)
    ensures var (d', t') := Transmit(false, d, t, f, ok);
            && t' == Received(t, f, ok)
            && d' == TxDone(Release(GetTx(d)).(sent := d.sent + [f], txLen := |f|))
  {
    assert ([f] + t.queue)[1..] == t.queue;
    assert t.(queue := t.queue) == t;
  }

  lemma TransmitNapi(d: Dev, t: Dev, f: Frame, ok: bool)
    requires d.free > 0 && Mode(true, d, t) && Mode(true, t, d)
    ensures var (d', t') := Transmit(true, d, t, f, ok);
            && t' == t.(queue := [f] + t.queue, rxInt := false, scheduled := true)
            && d' == TxDone(GetTx(d).(sent := d.sent + [f], txLen := |f|))
  {
  }

  /** A twin that polls is not interrupted: the frame is queued on it and nothing else happens to it. */
  lemma PollingTwinIsNotInterrupted(d: Dev, t: Dev, f: Frame, ok: bool)
    requires d.free > 0 && !t.rxInt
    ensures Transmit(true, d, t, f, ok).1 == t.(queue := [f] + t.queue)
  {
  }

  /** The frame's own direction, NAPI mode: it stays queued. */
  lemma TransmitLinkNapi(d: Dev, t: Dev, packets: nat, f: Frame, ok: bool)
    requires Link(d, t, packets) && Mode(true, d, t) && Mode(true, t, d) && d.free > 0
    ensures var (d', t') := Transmit(true, d, t, f, ok); Link(d', t', packets)
  {
    var (d', t') := Transmit(true, d, t, f, ok);
    SendKeepsLink(d, t, packets, f);
    TransmitNapi(d, t, f, ok);
    LinkDependsOn(TxDone(GetTx(d).(sent := d.sent + [f], txLen := |f|)),
                  t.(queue := [f] + t.queue), d', t', packets);
  }

  /** The frame's own direction, regular mode: it has arrived (or was dropped). */
  lemma TransmitLinkRegular(d: Dev, t: Dev, packets: nat, f: Frame, ok: bool)
    requires Link(d, t, packets) && Mode(false, d, t) && Mode(false, t, d) && d.free > 0
    ensures var (d', t') := Transmit(false, d, t, f, ok);
            Link(d', t', packets) && Frames(t'.log) == d'.sent
  {
    var (d', t') := Transmit(false, d, t, f, ok);
    TransmitRegular(d, t, f, ok);
    SendKeepsLink(d, t, packets, f);
    var ds := TxDone(GetTx(d).(sent := d.sent + [f], txLen := |f|));
    var ts := t.(queue := [f] + t.queue);
    ReceiveKeepsLink(ds, ts, packets, ok);
    assert ts.queue[1..] == [] && ts.queue[0] == f;
    LinkDependsOn(Release(ds), Received(ts.(queue := ts.queue[1..]), ts.queue[0], ok), d', t', packets);
    ReceivedLog(t, f, ok);
  }

  /** The opposite direction is not touched. */
  lemma TransmitKeepsSides(napi: bool, d: Dev, t: Dev, f: Frame, ok: bool)
    requires Mode(napi, d, t) && Mode(napi, t, d) && d.free > 0
    ensures var (d', t') := Transmit(napi, d, t, f, ok);
            && SameTxSide(t, t') && SameRxSide(d, d')
            && d'.status == IDLE && t'.status == IDLE
            && d'.rxInt == d.rxInt && d'.scheduled == d.scheduled
            && (napi ==> !t'.rxInt && t'.scheduled)
            && (!napi ==> t'.rxInt && !t'.scheduled && t'.queue == [])
  {
    if napi {
      TransmitNapi(d, t, f, ok);
    } else {
      TransmitRegular(d, t, f, ok);
    }
  }

  lemma TransmitKeeps(napi: bool, d: Dev, t: Dev, pd: nat, pt: nat, f: Frame, ok: bool)
    requires Link(d, t, pd) && Link(t, d, pt) && Mode(napi, d, t) && Mode(napi, t, d) && d.free > 0
    ensures var (d', t') := Transmit(napi, d, t, f, ok);
            && Link(d', t', pd) && Link(t', d', pt) && Mode(napi, d', t') && Mode(napi, t', d')
  {
    var (d', t') := Transmit(napi, d, t, f, ok);
    TransmitKeepsSides(napi, d, t, f, ok);
    assert Link(d', t', pd) && (!napi ==> Frames(t'.log) == d'.sent) by {
      if napi {
        TransmitLinkNapi(d, t, pd, f, ok);
      } else {
        TransmitLinkRegular(d, t, pd, f, ok);
      }
    }
    LinkDependsOn(t, d, t', d', pt);
  }

  lemma {:induction false} PollLoopKeepsLink(d: Dev, t: Dev, n: nat, budget: int, alloc: seq<bool>, k: nat, packets: nat)
    requires Link(t, d, packets)
    ensures var (d', t', _) := PollLoop(d, t, n, budget, alloc, k); Link(t', d', packets)
    decreases |d.queue|
  {
    if n < budget && d.queue != [] {
      var ok := Allocates(alloc, k);
      ReceiveKeepsLink(t, d, packets, ok);
      PollLoopKeepsLink(Received(d.(queue := d.queue[1..]), d.queue[0], ok), Release(t),
                        if ok then n + 1 else n, budget, alloc, k + 1, packets);
    }
  }

  /** A poll delivers at most its budget, stops only at the budget or with the queue empty, and
      leaves everything else alone. */
  lemma {:induction false} PollLoopBounds(d: Dev, t: Dev, n: nat, budget: int, alloc: seq<bool>, k: nat)
    ensures var (d', t', n') := PollLoop(d, t, n, budget, alloc, k);
            && SameTxSide(d, d') && SameRxSide(t, t') && t'.sent == t.sent
            && d'.status == d.status && d'.rxInt == d.rxInt && d'.scheduled == d.scheduled
            && t'.status == t.status && t'.rxInt == t.rxInt && t'.scheduled == t.scheduled
            && n <= n' <= Max(n, budget)
            && n' - n == d'.stats.rxPackets - d.stats.rxPackets
            && (d'.queue != [] ==> n' >= budget)
    decreases |d.queue|
  {
    if n < budget && d.queue != [] {
      var ok := Allocates(alloc, k);
      PollLoopBounds(Received(d.(queue := d.queue[1..]), d.queue[0], ok), Release(t),
                     if ok then n + 1 else n, budget, alloc, k + 1);
    }
  }

  /** One more taken from the front. */
  lemma TakenOne(q: seq<Frame>, rest: seq<Frame>, before: seq<Frame>)
    requires q != [] && |rest| < |q| && rest == q[1..][|q| - 1 - |rest|..]
    ensures rest == q[|q| - |rest|..]
    ensures before + [q[0]] + q[1..][..|q| - 1 - |rest|] == before + q[..|q| - |rest|]
  {
  }

  lemma PollLoopStep(d: Dev, t: Dev, n: nat, budget: int, alloc: seq<bool>, k: nat)
    ensures PollLoop(d, t, n, budget, alloc, k) ==
            if n < budget && d.queue != [] then
              var ok := Allocates(alloc, k);
              PollLoop(Received(d.(queue := d.queue[1..]), d.queue[0], ok), Release(t),
                       if ok then n + 1 else n, budget, alloc, k + 1)
            else (d, t, n)
  {
  }

  /** A poll takes a prefix of the queue, newest frame first. */
  lemma {:induction false} PollLoopTakesPrefix(d: Dev, t: Dev, n: nat, budget: int, alloc: seq<bool>, k: nat)
    ensures var d' := PollLoop(d, t, n, budget, alloc, k).0;
            && |d'.queue| <= |d.queue| && d'.queue == d.queue[|d.queue| - |d'.queue|..]
            && Frames(d'.log) == Frames(d.log) + d.queue[..|d.queue| - |d'.queue|]
    decreases |d.queue|
  {
    PollLoopStep(d, t, n, budget, alloc, k);
    hide Frames, PollLoop;
    if n < budget && d.queue != [] {
      var ok := Allocates(alloc, k);
      ReceivedLog(d.(queue := d.queue[1..]), d.queue[0], ok);
      PollLoopTakesPrefix(Received(d.(queue := d.queue[1..]), d.queue[0], ok), Release(t),
                          if ok then n + 1 else n, budget, alloc, k + 1);
      TakenOne(d.queue, PollLoop(d, t, n, budget, alloc, k).0.queue, Frames(d.log));
    } else {
      assert d.queue[..0] == [];
    }
  }

  /** Of the frames a poll takes exactly those are delivered whose allocation succeeds. */
  lemma {:induction false} PollDropsFailed(d: Dev, t: Dev, n: nat, budget: int, alloc: seq<bool>, k: nat)
    ensures var d' := PollLoop(d, t, n, budget, alloc, k).0;
            && |d'.queue| <= |d.queue|
            && Flags(d'.log) == Flags(d.log) +
                 seq(|d.queue| - |d'.queue|, i requires i >= 0 => k + i >= |alloc| || alloc[k + i])
    decreases |d.queue|
  {
    PollLoopStep(d, t, n, budget, alloc, k);
    hide PollLoop, Flags;
    if n < budget && d.queue != [] {
      var ok := Allocates(alloc, k);
      var d1 := Received(d.(queue := d.queue[1..]), d.queue[0], ok);
      var n1 := if ok then n + 1 else n;
      PollDropsFailed(d1, Release(t), n1, budget, alloc, k + 1);
      ReceivedFlag(d.(queue := d.queue[1..]), d.queue[0], ok);
      var m := |d.queue| - |PollLoop(d, t, n, budget, alloc, k).0.queue|;
      assert [ok] + seq(m - 1, i requires i >= 0 => k + 1 + i >= |alloc| || alloc[k + 1 + i]) ==
             seq(m, i requires i >= 0 => k + i >= |alloc| || alloc[k + i]);
    } else {
      assert seq(0, i requires i >= 0 => k + i >= |alloc| || alloc[k + i]) == [];
    }
  }

  lemma ReceivedFlag(d: Dev, f: Frame, ok: bool)
    ensures Flags(Received(d, f, ok).log) == Flags(d.log) + [ok]
  {
  }

  lemma PolledKeeps(d: Dev, t: Dev, pd: nat, pt: nat, budget: int, alloc: seq<bool>)
    requires Link(d, t, pd) && Link(t, d, pt) && Mode(true, d, t) && Mode(true, t, d) && d.scheduled
    ensures var (d', t', r) := Polled(d, t, budget, alloc);
            && Link(d', t', pd) && Link(t', d', pt) && Mode(true, d', t') && Mode(true, t', d')
            && d'.stats.rxPackets - d.stats.rxPackets <= Max(budget, 0)
            && (budget > 0 ==> (d'.scheduled <==> r == budget))
  {
    PollLoopKeepsLink(d, t, 0, budget, alloc, 0, pt);
    PollLoopBounds(d, t, 0, budget, alloc, 0);
    var (d1, t1, n) := PollLoop(d, t, 0, budget, alloc, 0);
    var (d', t', r) := Polled(d, t, budget, alloc);
    LinkDependsOn(t1, d1, t', d', pt);
    LinkDependsOn(d, t, d', t', pd);
  }

  lemma StepKeeps(n: Net, e: Event, pa: nat, pb: nat)
    requires Inv(n, pa, pb) && pa > 0 && pb > 0
    ensures Step(n, e).Live? && Step(n, e).net.napi == n.napi && Inv(Step(n, e).net, pa, pb)
  {
    if Enabled(n, e) {
      var d, t := n.Near(e.onA), n.Far(e.onA);
      var pd, pt := if e.onA then pa else pb, if e.onA then pb else pa;
      match e {
        case Tx(_, skb, ok) =>
          TransmitKeeps(n.napi, d, t, pd, pt, Wire(skb), ok);
        case Irq(_, ok) =>
          assert Interrupt(n.napi, d, t, ok) == (d, t);
        case Poll(_, budget, alloc) =>
          PolledKeeps(d, t, pd, pt, budget, alloc);
      }
    }
  }

  // ---------------------------------------------------------------- theorems over all runs

  /** The frames the kernel got accepted for transmission on one device during a run. */
  function Accepted(n: Net, events: seq<Event>, onA: bool): seq<Frame> {
    if events == [] then []
    else
      var init, e := events[..|events| - 1], events[|events| - 1];
      var o := Run(n, init);
      Accepted(n, init, onA) +
      if o.Live? && Enabled(o.net, e) && e.Tx? && e.onA == onA then [e.skb] else []
  }

  /** The allocation outcomes that came with the accepted frames. */
  function Allocations(n: Net, events: seq<Event>, onA: bool): seq<bool> {
    if events == [] then []
    else
      var init, e := events[..|events| - 1], events[|events| - 1];
      var o := Run(n, init);
      Allocations(n, init, onA) +
      if o.Live? && Enabled(o.net, e) && e.Tx? && e.onA == onA then [e.ok] else []
  }

  lemma StepRegularFlags(n: Net, e: Event, onA: bool, pa: nat, pb: nat)
    requires !n.napi && Inv(n, pa, pb) && pa > 0 && pb > 0
    ensures Step(n, e).Live?
    ensures Flags(Step(n, e).net.Far(onA).log) ==
            Flags(n.Far(onA).log) + if Enabled(n, e) && e.Tx? && e.onA == onA then [e.ok] else []
  {
    hide Wire, Frames, Link, PollLoop, Flags;
    var d, t := n.Near(e.onA), n.Far(e.onA);
    assert Flags(n.Far(onA).log) + [] == Flags(n.Far(onA).log);
    if Enabled(n, e) {
      match e {
        case Tx(_, skb, ok) =>
          StepKeeps(n, e, pa, pb);
          TransmitRegular(d, t, Wire(skb), ok);
          ReceivedFlag(t, Wire(skb), ok);
        case Irq(_, ok) =>
        case Poll(_, budget, alloc) =>
      }
    }
  }

  lemma {:induction false} RegularFlags(n: Net, events: seq<Event>, onA: bool, pa: nat, pb: nat)
    requires !n.napi && Inv(n, pa, pb) && pa > 0 && pb > 0
    ensures Run(n, events).Live?
    ensures Flags(Run(n, events).net.Far(onA).log) == Flags(n.Far(onA).log) + Allocations(n, events, onA)
    decreases |events|
  {
    hide Step, Inv, Enabled, Flags;
    if events == [] {
      assert Flags(n.Far(onA).log) + [] == Flags(n.Far(onA).log);
    } else {
      var init := events[..|events| - 1];
      RegularFlags(n, init, onA, pa, pb);
      RunKeeps(n, init, pa, pb);
      StepRegularFlags(Run(n, init).net, events[|events| - 1], onA, pa, pb);
    }
  }

  lemma InterruptKeepsSent(napi: bool, d: Dev, t: Dev, ok: bool)
    ensures var (d', t') := Interrupt(napi, d, t, ok); d'.sent == d.sent && t'.sent == t.sent
  {
  }

  lemma TransmitSent(napi: bool, d: Dev, t: Dev, f: Frame, ok: bool)
    requires d.free > 0
    ensures var (d', t') := Transmit(napi, d, t, f, ok); d'.sent == d.sent + [f] && t'.sent == t.sent
  {
    var d1 := GetTx(d).(sent := d.sent + [f]);
    var t1 := t.(queue := [f] + t.queue);
    var (t2, d2) := if t1.rxInt then Interrupt(napi, t1.(status := t1.status.(rx := true)), d1, ok) else (t1, d1);
    InterruptKeepsSent(napi, t1.(status := t1.status.(rx := true)), d1, ok);
    InterruptKeepsSent(napi, d2.(txLen := |f|, status := d2.status.(tx := true)), t2, ok);
    hide Interrupt;
  }

  lemma StepSent(n: Net, e: Event, onA: bool)
    requires Step(n, e).Live?
    ensures Step(n, e).net.Near(onA).sent == n.Near(onA).sent +
            if Enabled(n, e) && e.Tx? && e.onA == onA then [Wire(e.skb)] else []
  {
    hide Wire, Transmit, Interrupt, PollLoop;
    if Enabled(n, e) {
      var d, t := n.Near(e.onA), n.Far(e.onA);
      match e {
        case Tx(_, skb, ok) => TransmitSent(n.napi, d, t, Wire(skb), ok);
        case Irq(_, ok) => InterruptKeepsSent(n.napi, d, t, ok);
        case Poll(_, budget, alloc) => PollLoopBounds(d, t, 0, budget, alloc, 0);
      }
    }
  }

  /** A device's medium has carried the wire form of each accepted frame, in order. */
  lemma {:induction false} SentIsWiresOfAccepted(n: Net, events: seq<Event>, onA: bool)
    requires Run(n, events).Live?
    ensures Run(n, events).net.Near(onA).sent == n.Near(onA).sent + Wires(Accepted(n, events, onA))
    decreases |events|
  {
    if events == [] {
      assert Wires([]) == [];
    } else {
      var init, e := events[..|events| - 1], events[|events| - 1];
      SentIsWiresOfAccepted(n, init, onA);
      var m := Run(n, init).net;
      StepSent(m, e, onA);
      var acc := Accepted(n, init, onA);
      if Enabled(m, e) && e.Tx? && e.onA == onA {
        assert Wires(acc + [e.skb]) == Wires(acc) + [Wire(e.skb)];
      } else {
        assert acc + [] == acc;
      }
    }
  }

  lemma {:induction false} RunKeeps(n: Net, events: seq<Event>, pa: nat, pb: nat)
    requires Inv(n, pa, pb) && pa > 0 && pb > 0
    ensures Run(n, events).Live? && Run(n, events).net.napi == n.napi && Inv(Run(n, events).net, pa, pb)
    decreases |events|
  {
    if events != [] {
      var init := events[..|events| - 1];
      RunKeeps(n, init, pa, pb);
      StepKeeps(Run(n, init).net, events[|events| - 1], pa, pb);
    }
  }

  lemma BootKeeps(napi: bool, pa: nat, pb: nat)
    ensures Inv(Boot(napi, pa, pb), pa, pb) <==> pa > 0 && pb > 0
  {
    assert Frames([]) == [];
  }

  /** Every run from module load, in either interrupt mode: no null pool is dereferenced, packets,
      statistics and frame contents are conserved in both directions, a running queue means a packet
      in the pool, and under NAPI a queued frame means interrupts off and a poll pending. */
  lemma EveryRun(napi: bool, pa: nat, pb: nat, events: seq<Event>)
    requires pa > 0 && pb > 0
    ensures Run(Boot(napi, pa, pb), events).Live?
    ensures var n := Run(Boot(napi, pa, pb), events).net;
            && Link(n.a, n.b, pa) && Link(n.b, n.a, pb)
            && Mode(napi, n.a, n.b) && Mode(napi, n.b, n.a)
  {
    BootKeeps(napi, pa, pb);
    RunKeeps(Boot(napi, pa, pb), events, pa, pb);
  }

  lemma FirstTransmitFails(n: Net, e: Event)
    requires Step(n, e) == NullDereference
    ensures !Run(n, [e]).Live?
  {
    hide Step;
    assert Run(n, [e][..0]) == Live(n);
  }

  /** No run dereferences an empty pool, exactly when both pools got at least one packet. */
  lemma PoolNeverEmptyOnTransmit(napi: bool, pa: nat, pb: nat)
    ensures (forall events :: Run(Boot(napi, pa, pb), events).Live?) <==> pa > 0 && pb > 0
  {
    var boot := Boot(napi, pa, pb);
    if pa > 0 && pb > 0 {
      BootKeeps(napi, pa, pb);
      forall events ensures Run(boot, events).Live? {
        RunKeeps(boot, events, pa, pb);
      }
    } else {
      var e := Tx(pa == 0, [], true);
      FirstTransmitFails(boot, e);
      hide Run, Step;
      assert exists events :: !Run(boot, events).Live?;
    }
  }

  lemma {:induction false} DeliveredCount(log: seq<Arrival>)
    ensures |Delivered(log)| == Count(log, true) && Count(log, true) + Count(log, false) == |log|
  {
    if log != [] {
      DeliveredCount(log[..|log| - 1]);
    }
  }

  /** Keeps the frames at the positions where `keep` holds. */
  function Kept(frames: seq<Frame>, keep: seq<bool>): seq<Frame>
    requires |frames| == |keep|
  {
    if frames == [] then []
    else Kept(frames[..|frames| - 1], keep[..|keep| - 1]) +
         if keep[|keep| - 1] then [frames[|frames| - 1]] else []
  }

  function Flags(log: seq<Arrival>): seq<bool> {
    seq(|log|, i requires 0 <= i < |log| => log[i].delivered)
  }

  lemma {:induction false} DeliveredIsKept(log: seq<Arrival>)
    ensures Delivered(log) == Kept(Frames(log), Flags(log))
  {
    if log != [] {
      var init := log[..|log| - 1];
      DeliveredIsKept(init);
      assert Frames(log)[..|log| - 1] == Frames(init);
      assert Flags(log)[..|log| - 1] == Flags(init);
    }
  }

  /** Regular interrupts: despite the LIFO queue each stack sees the twin's accepted frames, as rewritten
      by the medium, in sending order, exactly without those for which no memory could be had. */
  lemma RegularModeDeliversInOrder(pa: nat, pb: nat, events: seq<Event>, onA: bool)
    requires pa > 0 && pb > 0
    ensures Run(Boot(false, pa, pb), events).Live?
    ensures var boot := Boot(false, pa, pb);
            var n := Run(boot, events).net;
            var sent, oks := Wires(Accepted(boot, events, !onA)), Allocations(boot, events, !onA);
            && n.Far(onA).sent == sent && |oks| == |sent|
            && Delivered(n.Near(onA).log) == Kept(sent, oks)
            && |Delivered(n.Near(onA).log)| == |sent| - n.Near(onA).stats.rxDropped
  {
    hide Wires, Wire, Step;
    var boot := Boot(false, pa, pb);
    BootKeeps(false, pa, pb);
    RunKeeps(boot, events, pa, pb);
    var n := Run(boot, events).net;
    var rx, tx := n.Near(onA), n.Far(onA);
    assert Mode(false, rx, tx) && rx.stats.rxDropped == Count(rx.log, false);
    SentIsWiresOfAccepted(boot, events, !onA);
    RegularFlags(boot, events, !onA, pa, pb);
    DeliveredIsKept(rx.log);
    DeliveredCount(rx.log);
    var sent, oks := Wires(Accepted(boot, events, !onA)), Allocations(boot, events, !onA);
    assert [] + sent == sent && [] + oks == oks && Flags([]) == [];
    assert |Frames(rx.log)| == |Flags(rx.log)|;
  }

  // ---------------------------------------------------------------- order under NAPI

  /** What rx has taken off its queue and then what is still on it, as the next polls would take it. */
  function Line(rx: Dev): seq<Frame> {
    Frames(rx.log) + rx.queue
  }

  predicate Transmits(n: Net, e: Event, onA: bool) {
    Enabled(n, e) && e.Tx? && e.onA == onA
  }

  /** Every frame accepted on one device found the twin's receive queue empty. */
  predicate SentIntoEmptyQueue(n: Net, events: seq<Event>, onA: bool) {
    events == [] ||
    var init, e := events[..|events| - 1], events[|events| - 1];
    var o := Run(n, init);
    && SentIntoEmptyQueue(n, init, onA)
    && (o.Live? && Transmits(o.net, e, onA) ==> o.net.Far(onA).queue == [])
  }

  ghost predicate Distinct(s: seq<Frame>) {
    forall i, j :: 0 <= i < j < |s| ==> s[i] != s[j]
  }

  /** A poll moves frames from the queue to the log without changing their line. */
  lemma PolledKeepsLine(d: Dev, t: Dev, budget: int, alloc: seq<bool>)
    ensures var (d', t', _) := Polled(d, t, budget, alloc); Line(d') == Line(d) && Line(t') == Line(t)
  {
    hide Frames, PollLoop;
    PollLoopTakesPrefix(d, t, 0, budget, alloc, 0);
    PollLoopBounds(d, t, 0, budget, alloc, 0);
    var d' := PollLoop(d, t, 0, budget, alloc, 0).0;
    var m := |d.queue| - |d'.queue|;
    assert d.queue == d.queue[..m] + d.queue[m..];
  }

  /** A new frame gets in front of those that wait; nothing else changes a line. */
  lemma StepLine(n: Net, e: Event, onA: bool, pa: nat, pb: nat)
    requires n.napi && Inv(n, pa, pb) && pa > 0 && pb > 0
    ensures Step(n, e).Live?
    ensures var rx := n.Far(onA);
            Line(Step(n, e).net.Far(onA)) ==
            if Transmits(n, e, onA) then Frames(rx.log) + [Wire(e.skb)] + rx.queue else Line(rx)
  {
    hide Wire, Frames, Link, PollLoop;
    if Enabled(n, e) {
      var d, t := n.Near(e.onA), n.Far(e.onA);
      match e {
        case Tx(_, skb, ok) =>
          StepKeeps(n, e, pa, pb);
          TransmitNapi(d, t, Wire(skb), ok);
        case Irq(_, ok) =>
        case Poll(_, budget, alloc) =>
          PolledKeepsLine(d, t, budget, alloc);
      }
    }
  }

  /** Putting a new frame before those that wait keeps the order exactly if none waits. */
  lemma OvertakingBreaksOrder(taken: seq<Frame>, queue: seq<Frame>, sent: seq<Frame>, f: Frame)
    requires multiset(sent) == multiset(taken) + multiset(queue)
    requires Distinct(sent + [f])
    ensures taken + [f] + queue == sent + [f] <==> queue == [] && taken + queue == sent
  {
    var line := taken + [f] + queue;
    if queue == [] {
      assert line == taken + queue + [f];
      assert line[..|line| - 1] == taken + queue && (sent + [f])[..|sent|] == sent;
    } else {
      var last := queue[|queue| - 1];
      assert last in multiset(sent);
      var i :| 0 <= i < |sent| && sent[i] == last;
      assert (sent + [f])[i] != (sent + [f])[|sent|];
      assert line[|line| - 1] == last;
      assert (sent + [f])[|sent + [f]| - 1] == f;
    }
  }

  /** The frames one device sent have been taken by the twin, and are then to be taken, in sending
      order. */
  ghost predicate TakenInOrder(n: Net, onA: bool) {
    Frames(n.Far(onA).log) + n.Far(onA).queue == n.Near(onA).sent
  }

  lemma StepOrderExactly(n: Net, e: Event, onA: bool, pa: nat, pb: nat)
    requires n.napi && Inv(n, pa, pb) && pa > 0 && pb > 0
    ensures Step(n, e).Live?
    ensures var n' := Step(n, e).net;
            Distinct(n'.Near(onA).sent) ==>
              && Distinct(n.Near(onA).sent)
              && (TakenInOrder(n', onA) <==>
                  TakenInOrder(n, onA) && (Transmits(n, e, onA) ==> n.Far(onA).queue == []))
  {
    hide Wire, Step, Frames, Mode, Enabled;
    StepLine(n, e, onA, pa, pb);
    StepSent(n, e, onA);
    var sent := n.Near(onA).sent;
    assert sent + [] == sent;
    if Transmits(n, e, onA) && Distinct(sent + [Wire(e.skb)]) {
      DistinctPrefix(sent, Wire(e.skb));
      OvertakingBreaksOrder(Frames(n.Far(onA).log), n.Far(onA).queue, sent, Wire(e.skb));
    }
  }

  /** NAPI, any run from module load, any mixture of budgets and failing allocations: frames that can
      be told apart have been taken and are to be taken in the order they were sent exactly if none was
      sent while another was still waiting in the twin's queue. */
  lemma {:induction false} NapiOrderExactly(pa: nat, pb: nat, events: seq<Event>, onA: bool)
    requires pa > 0 && pb > 0
    ensures Run(Boot(true, pa, pb), events).Live?
    ensures var n := Run(Boot(true, pa, pb), events).net;
            Distinct(n.Near(onA).sent) ==>
              (TakenInOrder(n, onA) <==> SentIntoEmptyQueue(Boot(true, pa, pb), events, onA))
    decreases |events|
  {
    hide Step, Inv, Frames, Distinct, Transmits;
    var boot := Boot(true, pa, pb);
    BootKeeps(true, pa, pb);
    RunKeeps(boot, events, pa, pb);
    if events == [] {
      BootFrames();
    } else {
      hide TakenInOrder;
      var init := events[..|events| - 1];
      NapiOrderExactly(pa, pb, init, onA);
      RunKeeps(boot, init, pa, pb);
      StepOrderExactly(Run(boot, init).net, events[|events| - 1], onA, pa, pb);
    }
  }

  lemma BootFrames()
    ensures Frames([]) == []
  {
  }

  lemma DistinctPrefix(s: seq<Frame>, f: Frame)
    requires Distinct(s + [f])
    ensures Distinct(s)
  {
    forall i, j | 0 <= i < j < |s| ensures s[i] != s[j] {
      assert (s + [f])[i] != (s + [f])[j];
    }
  }

  // ---------------------------------------------------------------- draining under NAPI

  /** A poll of one device with a budget of at least one. */
  predicate PollOf(e: Event, onA: bool) {
    e.Poll? && e.onA == onA && e.budget >= 1
  }

  function Polls(events: seq<Event>, onA: bool): nat {
    if events == [] then 0
    else Polls(events[..|events| - 1], onA) + if PollOf(events[|events| - 1], onA) then 1 else 0
  }

  /** Nothing is transmitted towards the device. */
  predicate NothingSentTo(events: seq<Event>, onA: bool) {
    forall i :: 0 <= i < |events| ==> !(events[i].Tx? && events[i].onA != onA)
  }

  lemma PollLoopAdvances(d: Dev, t: Dev, budget: int, alloc: seq<bool>)
    ensures var d' := PollLoop(d, t, 0, budget, alloc, 0).0;
            |d'.queue| <= |d.queue| && (budget >= 1 && d.queue != [] ==> |d'.queue| < |d.queue|)
  {
    PollLoopStep(d, t, 0, budget, alloc, 0);
    PollLoopTakesPrefix(d, t, 0, budget, alloc, 0);
    if budget >= 1 && d.queue != [] {
      var ok := Allocates(alloc, 0);
      PollLoopTakesPrefix(Received(d.(queue := d.queue[1..]), d.queue[0], ok), Release(t),
                          if ok then 1 else 0, budget, alloc, 1);
    }
    hide PollLoop;
  }

  /** Short of a transmit towards it no step makes a queue longer, and a poll makes it shorter. */
  lemma StepDrains(n: Net, e: Event, onA: bool, pa: nat, pb: nat)
    requires n.napi && Inv(n, pa, pb) && pa > 0 && pb > 0 && !(e.Tx? && e.onA != onA)
    ensures Step(n, e).Live?
    ensures var q, q' := n.Near(onA).queue, Step(n, e).net.Near(onA).queue;
            |q'| <= |q| && (PollOf(e, onA) && q != [] ==> |q'| < |q|)
  {
    hide Wire, Frames, Link, PollLoop;
    if Enabled(n, e) {
      var d, t := n.Near(e.onA), n.Far(e.onA);
      match e {
        case Tx(_, skb, ok) =>
          StepKeeps(n, e, pa, pb);
          TransmitNapi(d, t, Wire(skb), ok);
        case Irq(_, ok) =>
        case Poll(_, budget, alloc) =>
          PollLoopAdvances(d, t, budget, alloc);
          PollLoopBounds(d, t, 0, budget, alloc, 0);
      }
    }
  }

  /** NAPI strands nothing: from any state of any run, once as many polls have come as frames were
      queued the queue is empty, whatever their positive budgets and their allocations and whatever
      else happens, unless more was sent to it. */
  lemma {:induction false} PollsDrain(n: Net, events: seq<Event>, onA: bool, pa: nat, pb: nat)
    requires n.napi && Inv(n, pa, pb) && pa > 0 && pb > 0 && NothingSentTo(events, onA)
    ensures Run(n, events).Live?
    ensures var q := Run(n, events).net.Near(onA).queue;
            |q| <= |n.Near(onA).queue| - Polls(events, onA) || q == []
    decreases |events|
  {
    hide Step, Link, Mode, PollOf;
    if events != [] {
      var init, e := events[..|events| - 1], events[|events| - 1];
      PollsDrain(n, init, onA, pa, pb);
      RunKeeps(n, init, pa, pb);
      StepDrains(Run(n, init).net, e, onA, pa, pb);
    }
  }

  function Burst(onA: bool, skbs: seq<Frame>): seq<Event> {
    seq(|skbs|, i requires 0 <= i < |skbs| => Tx(onA, skbs[i], true))
  }

  function Reversed(s: seq<Frame>): seq<Frame> {
    if s == [] then [] else [s[|s| - 1]] + Reversed(s[..|s| - 1])
  }

  ghost predicate Piled(n: Net, m: Net, onA: bool, skbs: seq<Frame>) {
    && m.napi
    && m.Far(onA).queue == Reversed(Wires(skbs)) + n.Far(onA).queue
    && m.Far(onA).log == n.Far(onA).log
    && m.Near(onA).free == n.Near(onA).free - |skbs|
    && (skbs != [] ==> m.Far(onA).scheduled)
  }

  lemma StepTxNapi(m: Net, onA: bool, skb: Frame)
    requires var d, t := m.Near(onA), m.Far(onA);
             m.napi && Mode(true, d, t) && Mode(true, t, d) && !d.stopped && d.free > 0 && |skb| <= ETH_DATA_LEN
    ensures Step(m, Tx(onA, skb, true)).Live?
    ensures var m' := Step(m, Tx(onA, skb, true)).net;
            && m'.napi
            && m'.Far(onA).queue == [Wire(skb)] + m.Far(onA).queue
            && m'.Far(onA).log == m.Far(onA).log && m'.Far(onA).scheduled
            && m'.Near(onA).free == m.Near(onA).free - 1
  {
    TransmitNapi(m.Near(onA), m.Far(onA), Wire(skb), true);
  }

  lemma ReversedWires(skbs: seq<Frame>, skb: Frame)
    ensures Reversed(Wires(skbs + [skb])) == [Wire(skb)] + Reversed(Wires(skbs))
  {
    hide Wire;
    assert Wires(skbs + [skb])[..|skbs|] == Wires(skbs);
  }

  lemma RunModes(n: Net, events: seq<Event>, onA: bool, pa: nat, pb: nat)
    requires n.napi && Inv(n, pa, pb) && pa > 0 && pb > 0
    ensures Run(n, events).Live?
    ensures var m := Run(n, events).net;
            && m.napi && Mode(true, m.Near(onA), m.Far(onA)) && Mode(true, m.Far(onA), m.Near(onA))
            && (m.Near(onA).stopped <==> m.Near(onA).free == 0)
  {
    RunKeeps(n, events, pa, pb);
  }

  lemma ReversedNone()
    ensures Reversed(Wires([])) == []
  {
  }

  /** NAPI: a burst of transmits piles up on the twin's queue, newest first. */
  lemma {:induction false} BurstPilesUp(n: Net, onA: bool, skbs: seq<Frame>, pa: nat, pb: nat)
    requires n.napi && Inv(n, pa, pb) && pa > 0 && pb > 0
    requires |skbs| <= n.Near(onA).free
    requires forall f :: f in skbs ==> |f| <= ETH_DATA_LEN
    ensures Run(n, Burst(onA, skbs)).Live? && Piled(n, Run(n, Burst(onA, skbs)).net, onA, skbs)
    decreases |skbs|
  {
    hide Wire, Step, Link, Mode, Wires, Reversed;
    if skbs == [] {
      ReversedNone();
    } else {
      var init, last := skbs[..|skbs| - 1], skbs[|skbs| - 1];
      BurstPilesUp(n, onA, init, pa, pb);
      assert Burst(onA, skbs)[..|skbs| - 1] == Burst(onA, init);
      var m := Run(n, Burst(onA, init)).net;
      RunModes(n, Burst(onA, init), onA, pa, pb);
      StepTxNapi(m, onA, last);
      ReversedWires(init, last);
      assert init + [last] == skbs;
    }
  }

  lemma PollDrainsPile(m: Net, onA: bool, pile: seq<Frame>)
    requires m.napi && m.Near(onA).queue == pile && m.Near(onA).log == [] && m.Near(onA).scheduled
    ensures var o := Step(m, Poll(onA, |pile|, []));
            o.Live? && Frames(o.net.Near(onA).log) == pile && o.net.Near(onA).queue == []
  {
    var d, t := m.Near(onA), m.Far(onA);
    PollLoopTakesPrefix(d, t, 0, |pile|, [], 0);
    PollAllDrains(d, t, 0, |pile|, 0);
    assert d.queue[..|d.queue|] == d.queue;
    assert Frames(d.log) == [];
  }

  /** The misordering the source marks with a FIXME: under NAPI the poll that follows a burst hands
      the burst over in reverse. */
  lemma BurstIsDeliveredReversed(pa: nat, pb: nat, onA: bool, skbs: seq<Frame>)
    requires pa > 0 && pb > 0 && 0 < |skbs| <= if onA then pa else pb
    requires forall f :: f in skbs ==> |f| <= ETH_DATA_LEN
    ensures var o := Run(Boot(true, pa, pb), Burst(onA, skbs) + [Poll(!onA, |skbs|, [])]);
            && o.Live?
            && Frames(o.net.Far(onA).log) == Reversed(Wires(skbs))
            && o.net.Far(onA).queue == []
  {
    var boot := Boot(true, pa, pb);
    BootKeeps(true, pa, pb);
    BurstPilesUp(boot, onA, skbs, pa, pb);
    var b, e := Burst(onA, skbs), Poll(!onA, |skbs|, []);
    assert (b + [e])[..|b + [e]| - 1] == b;
    ReversedLength(Wires(skbs));
    PollDrainsPile(Run(boot, b).net, !onA, Reversed(Wires(skbs)));
  }

  lemma {:induction false} ReversedLength(s: seq<Frame>)
    ensures |Reversed(s)| == |s|
  {
    if s != [] {
      ReversedLength(s[..|s| - 1]);
    }
  }

  lemma {:induction false} PollAllDrains(d: Dev, t: Dev, n: nat, budget: nat, k: nat)
    requires n + |d.queue| <= budget
    ensures PollLoop(d, t, n, budget, [], k).0.queue == []
    decreases |d.queue|
  {
    if d.queue != [] {
      PollAllDrains(Received(d.(queue := d.queue[1..]), d.queue[0], true), Release(t), n + 1, budget, k + 1);
    }
  }
}
