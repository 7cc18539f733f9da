/** The snull driver as it stands in memory: packets linked through their next fields into a pool
    per owner and a receive queue per device (net/snull/snull.c). Each entry point is proved to be
    the corresponding step of SnullNet and to keep the lists acyclic, disjoint and complete. */
module Snull {
  import opened Bytes
  import opened SnullFrames
  import opened SnullNet

  /** Where a packet is: in its owner's pool, on the twin's receive queue, or in the driver's hands. */
  datatype Place = Pooled | Queued | Loose

  class Packet {
    var next: Packet?
    const dev: Device
    var datalen: nat
    var data: seq<Byte>
    ghost var place: Place
    ghost var depth: nat   // number of packets behind it in its list

    constructor (dev: Device)
      ensures this.dev == dev && next == null && place == Loose && Fits()
    {
      this.dev, next, datalen, data, place, depth := dev, null, 0, Zeros(ETH_DATA_LEN), Loose, 0;
    }

    ghost predicate Fits()
      reads this
    {
      |data| == ETH_DATA_LEN && datalen <= ETH_DATA_LEN
    }

    ghost function Contents(): Frame
      requires Fits()
      reads this
    {
      data[..datalen]
    }
  }

  class Device {
    var ppool: Packet?
    var rxQueue: Packet?
    var status: Status
    var rxIntEnabled: bool
    var napiScheduled: bool
    var queueStopped: bool
    var txPacketlen: nat
    var stats: Stats
    var sent: seq<Frame>
    var log: seq<Arrival>
    ghost var Pool: seq<Packet>
    ghost var Queue: seq<Packet>
    ghost var Frames: seq<Frame>   // contents of Queue

    /** snull_init and snull_open: zeroed private data, receive interrupts on, queue started. */
    constructor ()
      ensures ppool == null && Pool == [] && rxQueue == null && Queue == []
      ensures Abs(this) == BootDev(0)
    {
      ppool, rxQueue, Pool, Queue, Frames := null, null, [], [], [];
      status, rxIntEnabled, napiScheduled, queueStopped := IDLE, true, false, false;
      txPacketlen, stats, sent, log := 0, Stats(0, 0, 0, 0, 0), [], [];
    }
  }

  ghost function Abs(d: Device): Dev
    reads d
  {
    Dev(|d.Pool|, d.Frames, d.status, d.rxIntEnabled, d.napiScheduled, d.queueStopped,
        d.txPacketlen, d.stats, d.sent, d.log)
  }

  // ---------------------------------------------------------------- lists

  /** head starts a null-terminated chain of exactly the packets s, all owned by `owner` and all
      marked as being in this kind of list. The depths make the chain free of cycles. */
  ghost predicate Linked(head: Packet?, s: seq<Packet>, owner: Device, place: Place)
    reads s
  {
    && head == (if s == [] then null else s[0])
    && (forall i {:trigger s[i].next} :: 0 <= i < |s| ==> s[i].next == if i + 1 < |s| then s[i + 1] else null)
    && (forall i :: 0 <= i < |s| ==>
          s[i].dev == owner && s[i].place == place && s[i].depth == |s| - 1 - i && s[i].Fits())
  }

  ghost predicate PoolOk(d: Device)
    reads d`ppool, d`Pool, d.Pool
  {
    Linked(d.ppool, d.Pool, d, Pooled)
  }

  ghost predicate QueueOk(d: Device, twin: Device)
    reads d`rxQueue, d`Queue, d`Frames, d.Queue
  {
    && Linked(d.rxQueue, d.Queue, twin, Queued)
    && |d.Frames| == |d.Queue|
    && (forall i :: 0 <= i < |d.Queue| ==> d.Queue[i].Contents() == d.Frames[i])
  }

  ghost predicate Valid(d: Device, t: Device)
    reads d`ppool, d`Pool, d`rxQueue, d`Queue, d`Frames, d.Pool, d.Queue
    reads t`ppool, t`Pool, t`rxQueue, t`Queue, t`Frames, t.Pool, t.Queue
  {
    d != t && PoolOk(d) && PoolOk(t) && QueueOk(d, t) && QueueOk(t, d)
  }

  /** The packets that belong to d: its pool and its frames in flight on the twin's queue. */
  ghost function Packets(d: Device, t: Device): set<Packet>
    reads d`Pool, t`Queue
  {
    (set p | p in d.Pool) + (set p | p in t.Queue)
  }

  /** The lists are in order and pkt, owned by o, is in the driver's hands. */
  ghost predicate Held(d: Device, t: Device, o: Device, pkt: Packet)
    reads d`ppool, d`Pool, d`rxQueue, d`Queue, d`Frames, d.Pool, d.Queue
    reads t`ppool, t`Pool, t`rxQueue, t`Queue, t`Frames, t.Pool, t.Queue
    reads pkt
  {
    Valid(d, t) && pkt.dev == o && pkt.place == Loose && pkt.Fits()
  }

  lemma LooseIsUnlisted(d: Device, t: Device, pkt: Packet)
    requires Valid(d, t) && pkt.place == Loose
    ensures pkt !in d.Pool && pkt !in d.Queue && pkt !in t.Pool && pkt !in t.Queue
  {
  }

  lemma NullIsEmpty(d: Device, t: Device)
    requires Valid(d, t)
    ensures d.rxQueue == null <==> d.Queue == []
    ensures |d.Queue| == |d.Frames| && d != t
  {
  }

  lemma HeadOrNull(d: Device, t: Device)
    requires QueueOk(d, t)
    ensures d.rxQueue == if d.Queue == [] then null else d.Queue[0]
  {
  }

  lemma BufferIsListed(d: Device, t: Device)
    requires Valid(d, t) && d.ppool != null
    ensures d.Pool != [] && d.ppool == d.Pool[0] && d.ppool.place == Pooled
    ensures d.ppool !in t.Pool && d.ppool !in d.Queue && d.ppool !in t.Queue
  {
  }

  lemma OwnBuffer(d: Device, t: Device)
    requires Valid(d, t) && d.ppool != null
    ensures d.ppool in Packets(d, t)
  {
  }

  lemma HeadIsListed(d: Device, t: Device)
    requires Valid(d, t) && d.rxQueue != null
    ensures d.Queue != [] && d.rxQueue == d.Queue[0]
    ensures d.rxQueue.place == Queued && d.rxQueue.dev == t && d.rxQueue in Packets(t, d)
    ensures d.rxQueue !in t.Pool && d.rxQueue !in d.Pool && d.rxQueue !in t.Queue
  {
  }

  /** No packet is in two lists, or twice in one. */
  lemma ListsAreDisjoint(d: Device, t: Device)
    requires Valid(d, t)
    ensures forall i, j :: 0 <= i < j < |d.Pool| ==> d.Pool[i] != d.Pool[j]
    ensures forall i, j :: 0 <= i < j < |d.Queue| ==> d.Queue[i] != d.Queue[j]
    ensures forall i, j :: 0 <= i < |d.Pool| && 0 <= j < |t.Queue| ==> d.Pool[i] != t.Queue[j]
    ensures Packets(d, t) !! Packets(t, d)
  {
  }

  // ---------------------------------------------------------------- buffers and pools

  /** Makes pkt the head of its owner's pool. */
  method PushPool(pkt: Packet)
    requires PoolOk(pkt.dev) && pkt.place == Loose && pkt.Fits()
    modifies pkt`next, pkt`place, pkt`depth, pkt.dev`ppool, pkt.dev`Pool
    ensures PoolOk(pkt.dev)
    ensures pkt.dev.Pool == [pkt] + old(pkt.dev.Pool) && pkt.place == Pooled
    ensures pkt.next == old(pkt.dev.ppool)
  {
    var d := pkt.dev;
    pkt.next := d.ppool;
    pkt.place, pkt.depth := Pooled, |d.Pool|;
    d.ppool, d.Pool := pkt, [pkt] + d.Pool;
  }

  /** kmalloc grants n of the packets asked for: all of them, or those before the first failure. */
  ghost predicate Grants(poolSize: int, kmalloc: nat -> bool, n: nat) {
    n <= Max(poolSize, 0) && (forall i: nat :: i < n ==> kmalloc(i)) && (n < poolSize ==> !kmalloc(n))
  }

  method SetupPool(d: Device, poolSize: int, kmalloc: nat -> bool)
    requires d.ppool == null && d.Pool == []
    modifies d`ppool, d`Pool
    ensures PoolOk(d) && fresh(d.Pool) && Grants(poolSize, kmalloc, |d.Pool|)
  {
    d.ppool, d.Pool := null, [];
    assert PoolOk(d);
    hide PoolOk;
    var i: nat := 0;
    while i < poolSize
      invariant i <= Max(poolSize, 0) && |d.Pool| == i
      invariant PoolOk(d) && fresh(d.Pool)
      invariant forall j: nat :: j < i ==> kmalloc(j)
    {
      if !kmalloc(i) {
        return;
      }
      var pkt := new Packet(d);
      PushPool(pkt);
      i := i + 1;
    }
  }

  /** Frees every packet in the pool; packets in flight on the twin are not among them. */
  method TeardownPool(d: Device) returns (freed: seq<Packet>)
    requires PoolOk(d)
    modifies d`ppool, d`Pool
    ensures d.ppool == null && d.Pool == [] && freed == old(d.Pool)
  {
    freed := [];
    while d.ppool != null
      invariant PoolOk(d) && freed + d.Pool == old(d.Pool)
      decreases |d.Pool|
    {
      var pkt := d.ppool;
      d.ppool, d.Pool := pkt.next, d.Pool[1..];
      freed := freed + [pkt];
    }
  }

  method GetTxBuffer(d: Device) returns (pkt: Packet)
    requires PoolOk(d) && d.ppool != null
    modifies d`ppool, d`Pool, d`queueStopped, d.ppool`place
    ensures PoolOk(d)
    ensures pkt == old(d.ppool) && [pkt] + d.Pool == old(d.Pool)
    ensures pkt.place == Loose && pkt.dev == d && pkt.Fits()
    ensures d.queueStopped == (old(d.queueStopped) || d.Pool == [])
  {
    pkt := d.ppool;
    assert forall i :: 1 <= i < |d.Pool| ==> d.Pool[i].depth != pkt.depth;
    d.ppool, d.Pool, pkt.place := pkt.next, d.Pool[1..], Loose;
    if d.ppool == null {
      d.queueStopped := true;
    }
  }

  method ReleaseBuffer(pkt: Packet)
    requires PoolOk(pkt.dev) && pkt.place == Loose && pkt.Fits()
    modifies pkt`next, pkt`place, pkt`depth, pkt.dev`ppool, pkt.dev`Pool, pkt.dev`queueStopped
    ensures PoolOk(pkt.dev)
    ensures pkt.dev.Pool == [pkt] + old(pkt.dev.Pool) && pkt.place == Pooled
    ensures pkt.dev.queueStopped == (old(pkt.dev.queueStopped) && |old(pkt.dev.Pool)| != 0)
  {
    PushPool(pkt);
    if pkt.dev.queueStopped && pkt.next == null {
      pkt.dev.queueStopped := false;
    }
  }

  /** Makes pkt the head of d's receive queue. */
  method PushQueue(d: Device, pkt: Packet)
    requires Linked(d.rxQueue, d.Queue, pkt.dev, Queued) && pkt.place == Loose && pkt.Fits()
    modifies pkt`next, pkt`place, pkt`depth, d`rxQueue, d`Queue
    ensures Linked(d.rxQueue, d.Queue, pkt.dev, Queued) && pkt.place == Queued
    ensures d.Queue == [pkt] + old(d.Queue)
  {
    pkt.next := d.rxQueue;
    pkt.place, pkt.depth := Queued, |d.Queue|;
    d.rxQueue, d.Queue := pkt, [pkt] + d.Queue;
  }

  /** Takes the head off d's receive queue. */
  method PopQueue(d: Device, pkt: Packet, ghost twin: Device)
    requires Linked(d.rxQueue, d.Queue, twin, Queued) && pkt == d.rxQueue
    modifies d`rxQueue, d`Queue, pkt`place
    ensures Linked(d.rxQueue, d.Queue, twin, Queued) && [pkt] + d.Queue == old(d.Queue)
    ensures pkt.place == Loose && pkt.dev == twin && pkt.Fits()
  {
    assert forall i :: 1 <= i < |d.Queue| ==> d.Queue[i].depth != pkt.depth;
    d.rxQueue, d.Queue, pkt.place := pkt.next, d.Queue[1..], Loose;
  }

  method EnqueueBuf(d: Device, pkt: Packet)
    requires QueueOk(d, pkt.dev) && pkt.place == Loose && pkt.Fits()
    modifies pkt`next, pkt`place, pkt`depth, d`rxQueue, d`Queue, d`Frames
    ensures QueueOk(d, pkt.dev) && pkt.place == Queued
    ensures d.Queue == [pkt] + old(d.Queue) && d.Frames == [old(pkt.Contents())] + old(d.Frames)
  {
    ghost var frame := pkt.Contents();
    PushQueue(d, pkt);
    hide Linked;
    d.Frames := [frame] + d.Frames;
  }

  method DequeueBuf(d: Device, ghost twin: Device) returns (pkt: Packet?)
    requires QueueOk(d, twin)
    modifies d`rxQueue, d`Queue, d`Frames, (if d.rxQueue == null then {} else {d.rxQueue})`place
    ensures QueueOk(d, twin) && pkt == old(d.rxQueue)
    ensures pkt == null ==> d.Queue == old(d.Queue) == []
    ensures pkt != null ==> [pkt] + d.Queue == old(d.Queue) && [pkt.Contents()] + d.Frames == old(d.Frames)
    ensures pkt != null ==> pkt.place == Loose && pkt.dev == twin && pkt.Fits()
  {
    pkt := d.rxQueue;
    HeadOrNull(d, twin);
    if pkt != null {
      hide Linked;
      ghost var q, f := d.Queue, d.Frames;
      PopQueue(d, pkt, twin);
      d.Frames := d.Frames[1..];
      assert f == [f[0]] + d.Frames && q[0] == pkt && forall i :: 0 <= i < |d.Queue| ==> d.Queue[i] == q[i + 1];
    }
  }

  // ---------------------------------------------------------------- receive side

  /** Accounts for a packet taken off the medium: delivered to the stack, or dropped. */
  method Receive(d: Device, pkt: Packet, ok: bool)
    requires pkt.Fits()
    modifies d`stats, d`log
    ensures Abs(d) == Received(old(Abs(d)), pkt.Contents(), ok)
  {
    var s := d.stats;
    var frame := pkt.data[..pkt.datalen];
    if !ok {
      d.stats := s.(rxDropped := s.rxDropped + 1);
    } else {
      d.stats := s.(rxPackets := s.rxPackets + 1, rxBytes := s.rxBytes + pkt.datalen);
    }
    d.log := d.log + [Arrival(frame, ok)];
  }

  /** Takes the newest packet off d's queue and accounts for it. */
  method TakeHead(d: Device, t: Device, ok: bool) returns (pkt: Packet)
    requires Valid(d, t) && d.rxQueue != null
    modifies d`rxQueue, d`Queue, d`Frames, d`stats, d`log, d.rxQueue`place
    ensures Held(d, t, t, pkt) && pkt == old(d.rxQueue)
    ensures Packets(t, d) + {pkt} == old(Packets(t, d))
    ensures var o := old(Abs(d)); o.queue != [] && Abs(d) == Received(o.(queue := o.queue[1..]), o.queue[0], ok)
    ensures Abs(t) == old(Abs(t))
  {
    hide Linked, Received;
    HeadIsListed(d, t);
    pkt := Unqueue(d, t);
    Receive(d, pkt, ok);
  }

  /** Takes the newest packet off d's queue. */
  method Unqueue(d: Device, t: Device) returns (pkt: Packet)
    requires Valid(d, t) && d.rxQueue != null
    modifies d`rxQueue, d`Queue, d`Frames, d.rxQueue`place
    ensures Held(d, t, t, pkt) && pkt == old(d.rxQueue)
    ensures Packets(t, d) + {pkt} == old(Packets(t, d))
    ensures var o := old(Abs(d)); o.queue == [pkt.Contents()] + d.Frames && Abs(d) == o.(queue := d.Frames)
  {
    hide Linked;
    HeadIsListed(d, t);
    ghost var q := d.Queue;
    pkt := DequeueBuf(d, t);
    assert q == [pkt] + d.Queue;
  }

  /** Gives a packet in the driver's hands back to its owner t. */
  method GiveBack(d: Device, t: Device, pkt: Packet)
    requires Held(d, t, t, pkt)
    modifies pkt`next, pkt`place, pkt`depth, t`ppool, t`Pool, t`queueStopped
    ensures Valid(d, t)
    ensures Packets(t, d) == old(Packets(t, d)) + {pkt}
    ensures Abs(d) == old(Abs(d)) && Abs(t) == Release(old(Abs(t)))
  {
    hide Linked;
    LooseIsUnlisted(d, t, pkt);
    ghost var pool := t.Pool;
    ReleaseBuffer(pkt);
    assert t.Pool == [pkt] + pool;
  }

  /** One iteration of the poll loop. */
  method PollOne(d: Device, t: Device, ok: bool)
    requires Valid(d, t) && d.rxQueue != null
    modifies d, t, Packets(t, d)
    ensures Valid(d, t) && Packets(t, d) == old(Packets(t, d)) && Packets(d, t) == old(Packets(d, t))
    ensures var o := old(Abs(d)); o.queue != [] && Abs(d) == Received(o.(queue := o.queue[1..]), o.queue[0], ok)
    ensures Abs(t) == Release(old(Abs(t)))
  {
    hide Linked, PoolOk, QueueOk, Valid, Held, Packets, Received, Release;
    HeadIsListed(d, t);
    var pkt := TakeHead(d, t, ok);
    GiveBack(d, t, pkt);
  }

  method CountTx(d: Device)
    modifies d`stats
    ensures Abs(d) == TxDone(old(Abs(d)))
  {
    d.stats := d.stats.(txPackets := d.stats.txPackets + 1, txBytes := d.stats.txBytes + d.txPacketlen);
  }

  method OnRegularInterrupt(d: Device, t: Device, ok: bool)
    requires Valid(d, t)
    modifies d, t, Packets(t, d)
    ensures Valid(d, t) && Packets(t, d) == old(Packets(t, d)) && Packets(d, t) == old(Packets(d, t))
    ensures (Abs(d), Abs(t)) == RegularInterrupt(old(Abs(d)), old(Abs(t)), ok)
  {
    hide Linked, PoolOk, QueueOk, Valid, Held, Packets, Received, Release, TxDone;
    NullIsEmpty(d, t);
    if d.rxQueue != null {
      HeadIsListed(d, t);
    }
    var statusword := d.status;
    d.status := IDLE;
    var pkt: Packet? := null;
    if statusword.rx {
      if d.rxQueue != null {
        pkt := TakeHead(d, t, ok);
      }
    }
    if statusword.tx {
      CountTx(d);
    }
    if pkt != null {
      GiveBack(d, t, pkt);
    }
  }

  method OnNapiInterrupt(d: Device)
    modifies d`status, d`rxIntEnabled, d`napiScheduled, d`stats
    ensures Abs(d) == NapiInterrupt(old(Abs(d)))
  {
    var statusword := d.status;
    d.status := IDLE;
    if statusword.rx {
      d.rxIntEnabled, d.napiScheduled := false, true;
    }
    if statusword.tx {
      CountTx(d);
    }
  }

  /** snull_interrupt: the handler chosen at module load. */
  method OnInterrupt(napi: bool, d: Device, t: Device, ok: bool)
    requires Valid(d, t)
    modifies d, t, Packets(t, d)
    ensures Valid(d, t) && Packets(t, d) == old(Packets(t, d)) && Packets(d, t) == old(Packets(d, t))
    ensures (Abs(d), Abs(t)) == Interrupt(napi, old(Abs(d)), old(Abs(t)), ok)
  {
    hide Linked;
    if napi {
      OnNapiInterrupt(d);
    } else {
      OnRegularInterrupt(d, t, ok);
    }
  }

  // ---------------------------------------------------------------- transmit side

  method TakeBuffer(d: Device, t: Device) returns (pkt: Packet)
    requires Valid(d, t) && d.ppool != null
    modifies d`ppool, d`Pool, d`queueStopped, d.ppool`place
    ensures Held(d, t, d, pkt) && pkt == old(d.ppool)
    ensures Packets(d, t) + {pkt} == old(Packets(d, t))
    ensures old(Abs(d)).free > 0 && Abs(d) == GetTx(old(Abs(d))) && Abs(t) == old(Abs(t))
  {
    hide Linked;
    BufferIsListed(d, t);
    ghost var pool := d.Pool;
    pkt := GetTxBuffer(d);
    assert pool == [pkt] + d.Pool;
  }

  method PutOnTwin(d: Device, t: Device, pkt: Packet)
    requires Held(d, t, d, pkt)
    modifies pkt`next, pkt`place, pkt`depth, t`rxQueue, t`Queue, t`Frames
    ensures Valid(d, t)
    ensures Packets(d, t) == old(Packets(d, t)) + {pkt}
    ensures Abs(d) == old(Abs(d))
    ensures Abs(t) == old(Abs(t)).(queue := [old(pkt.Contents())] + old(Abs(t)).queue)
  {
    hide Linked;
    LooseIsUnlisted(d, t, pkt);
    ghost var queue := t.Queue;
    EnqueueBuf(t, pkt);
    assert t.Queue == [pkt] + queue;
  }

  /** Copies a frame into one of d's packets and puts it on the twin's queue. */
  method SendFrame(buf: array<Byte>, d: Device, t: Device)
    requires Valid(d, t) && d.ppool != null && buf.Length <= ETH_DATA_LEN
    modifies d`ppool, d`Pool, d`queueStopped, d`sent, t`rxQueue, t`Queue, t`Frames, d.ppool
    ensures Valid(d, t) && Packets(d, t) == old(Packets(d, t))
    ensures old(Abs(d)).free > 0
    ensures Abs(d) == GetTx(old(Abs(d))).(sent := old(d.sent) + [buf[..]])
    ensures Abs(t) == old(Abs(t)).(queue := [buf[..]] + old(Abs(t)).queue)
  {
    hide Linked, PoolOk, QueueOk;
    var pkt := TakeBuffer(d, t);
    LooseIsUnlisted(d, t, pkt);
    pkt.datalen := buf.Length;
    pkt.data := buf[..] + pkt.data[buf.Length..];
    assert pkt.Contents() == buf[..];
    PutOnTwin(d, t, pkt);
    d.sent := d.sent + [buf[..]];
  }

  /** The receive interrupt simulated on the twin, if it accepts one. */
  method SignalTwin(napi: bool, d: Device, t: Device, ok: bool)
    requires Valid(d, t)
    modifies d, t, Packets(d, t)
    ensures Valid(d, t) && Packets(d, t) == old(Packets(d, t)) && Packets(t, d) == old(Packets(t, d))
    ensures var t1 := old(Abs(t));
            (Abs(t), Abs(d)) == if t1.rxInt then Interrupt(napi, t1.(status := t1.status.(rx := true)), old(Abs(d)), ok)
                                else (t1, old(Abs(d)))
  {
    hide Linked, PoolOk, QueueOk, Interrupt, Packets;
    if t.rxIntEnabled {
      t.status := t.status.(rx := true);
      OnInterrupt(napi, t, d, ok);
    }
  }

  /** The part of snull_hw_tx that follows the rewriting of the frame. */
  method Deliver(napi: bool, buf: array<Byte>, d: Device, t: Device, ok: bool)
    requires Valid(d, t) && buf.Length <= ETH_DATA_LEN && d.ppool != null
    modifies d, t, Packets(d, t), Packets(t, d)
    ensures Valid(d, t) && Packets(d, t) == old(Packets(d, t)) && Packets(t, d) == old(Packets(t, d))
    ensures old(Abs(d)).free > 0
    ensures (Abs(d), Abs(t)) == Transmit(napi, old(Abs(d)), old(Abs(t)), buf[..], ok)
  {
    hide Linked, PoolOk, QueueOk, Interrupt, Packets;
    OwnBuffer(d, t);
    SendFrame(buf, d, t);
    SignalTwin(napi, d, t, ok);
    d.txPacketlen := buf.Length;
    d.status := d.status.(tx := true);
    OnInterrupt(napi, d, t, ok);
  }

  /** snull_hw_tx. The null check that the source lacks is the precondition on ppool. */
  method HwTx(napi: bool, buf: array<Byte>, d: Device, t: Device, ok: bool)
    requires Valid(d, t) && buf.Length <= ETH_DATA_LEN
    requires buf.Length >= ETH_HLEN + IP_HLEN ==> d.ppool != null
    modifies buf, d, t, Packets(d, t), Packets(t, d)
    ensures Valid(d, t) && Packets(d, t) == old(Packets(d, t)) && Packets(t, d) == old(Packets(t, d))
    ensures buf.Length < ETH_HLEN + IP_HLEN ==>
              Abs(d) == old(Abs(d)) && Abs(t) == old(Abs(t)) && buf[..] == old(buf[..])
    ensures buf.Length >= ETH_HLEN + IP_HLEN ==>
              && old(Abs(d)).free > 0
              && buf[..] == Rewritten(old(buf[..]))
              && (Abs(d), Abs(t)) == Transmit(napi, old(Abs(d)), old(Abs(t)), buf[..], ok)
  {
    hide Linked, PoolOk, QueueOk, Packets, Transmit, Rewritten;
    if buf.Length < ETH_HLEN + IP_HLEN {
      return;
    }
    RewriteInPlace(buf);
    Deliver(napi, buf, d, t, ok);
  }

  /** snull_tx: short frames are padded in a scratch buffer, longer ones rewritten in place. */
  method OnTransmit(napi: bool, skb: array<Byte>, d: Device, t: Device, ok: bool)
    requires Valid(d, t) && skb.Length <= ETH_DATA_LEN && d.ppool != null
    modifies skb, d, t, Packets(d, t), Packets(t, d)
    ensures Valid(d, t) && Packets(d, t) == old(Packets(d, t)) && Packets(t, d) == old(Packets(t, d))
    ensures old(Abs(d)).free > 0
    ensures (Abs(d), Abs(t)) == Transmit(napi, old(Abs(d)), old(Abs(t)), Wire(old(skb[..])), ok)
    ensures skb[..] == if skb.Length < ETH_ZLEN then old(skb[..]) else Wire(old(skb[..]))
  {
    hide Linked, PoolOk, QueueOk, Packets, Transmit, Rewritten;
    var data := skb;
    if skb.Length < ETH_ZLEN {
      data := new Byte[ETH_ZLEN](i requires 0 <= i < ETH_ZLEN reads skb => if i < skb.Length then skb[i] else 0);
      assert data[..] == Padded(skb[..]);
    }
    HwTx(napi, data, d, t, ok);
  }

  // ---------------------------------------------------------------- NAPI poll

  method OnPoll(d: Device, t: Device, budget: int, alloc: seq<bool>) returns (r: nat)
    requires Valid(d, t)
    modifies d, t, Packets(t, d)
    ensures Valid(d, t) && Packets(d, t) == old(Packets(d, t)) && Packets(t, d) == old(Packets(t, d))
    ensures (Abs(d), Abs(t), r) == Polled(old(Abs(d)), old(Abs(t)), budget, alloc)
  {
    hide Linked, PoolOk, QueueOk, Packets, Release;
    var npackets: nat := 0;
    var k: nat := 0;
    NullIsEmpty(d, t);
    while npackets < budget && d.rxQueue != null
      invariant Valid(d, t) && (d.rxQueue == null <==> d.Frames == [])
      invariant Packets(d, t) == old(Packets(d, t)) && Packets(t, d) == old(Packets(t, d))
      invariant PollLoop(Abs(d), Abs(t), npackets, budget, alloc, k) ==
                PollLoop(old(Abs(d)), old(Abs(t)), 0, budget, alloc, 0)
      decreases |d.Frames|
    {
      PollOne(d, t, Allocates(alloc, k));
      npackets := if Allocates(alloc, k) then npackets + 1 else npackets;
      k := k + 1;
      NullIsEmpty(d, t);
    }
    if d.rxQueue == null {
      d.napiScheduled, d.rxIntEnabled := false, true;
      return 0;
    }
    return npackets;
  }

  // ---------------------------------------------------------------- whole runs

  /** The two devices of the module, wired to each other. */
  class Medium {
    const a: Device
    const b: Device
    const napi: bool

    constructor (a: Device, b: Device, napi: bool)
      ensures this.a == a && this.b == b && this.napi == napi
    {
      this.a, this.b, this.napi := a, b, napi;
    }

    ghost function Net(): SnullNet.Net
      reads a, b
    {
      SnullNet.Net(napi, Abs(a), Abs(b))
    }

    /** One kernel request. An enabled transmit finds a packet because of the invariant. */
    method Handle(e: Event, ghost pa: nat, ghost pb: nat)
      requires Valid(a, b) && Inv(Net(), pa, pb) && pa > 0 && pb > 0
      modifies a, b, Packets(a, b), Packets(b, a)
      ensures Valid(a, b) && Packets(a, b) == old(Packets(a, b)) && Packets(b, a) == old(Packets(b, a))
      ensures Step(old(Net()), e) == Live(Net())
    {
      hide Linked, PoolOk, QueueOk, Packets, Transmit, Interrupt, Polled, Wire;
      var d, t := a, b;
      if !e.onA {
        d, t := b, a;
        ValidIsSymmetric(a, b);
      }
      match e {
        case Tx(_, skb, ok) =>
          if !d.queueStopped && |skb| <= ETH_DATA_LEN {
            NonemptyPool(d, t);
            var data := new Byte[|skb|](i requires 0 <= i < |skb| => skb[i]);
            assert data[..] == skb;
            OnTransmit(napi, data, d, t, ok);
          }
        case Irq(_, ok) =>
          OnInterrupt(napi, d, t, ok);
        case Poll(_, budget, alloc) =>
          if d.napiScheduled {
            var _ := OnPoll(d, t, budget, alloc);
          }
      }
      ValidIsSymmetric(d, t);
    }

    /** Every run keeps the lists in order, loses and gains no packet, and is a run of SnullNet. */
    method Run(events: seq<Event>, ghost pa: nat, ghost pb: nat)
      requires Valid(a, b) && Inv(Net(), pa, pb) && pa > 0 && pb > 0
      modifies a, b, Packets(a, b), Packets(b, a)
      ensures Valid(a, b) && Packets(a, b) == old(Packets(a, b)) && Packets(b, a) == old(Packets(b, a))
      ensures SnullNet.Run(old(Net()), events) == Live(Net()) && Inv(Net(), pa, pb)
    {
      hide Linked, PoolOk, QueueOk, Packets, Step, Link, Mode;
      var i := 0;
      assert events[..0] == [];
      while i < |events|
        invariant 0 <= i <= |events|
        invariant Valid(a, b) && Packets(a, b) == old(Packets(a, b)) && Packets(b, a) == old(Packets(b, a))
        invariant SnullNet.Run(old(Net()), events[..i]) == Live(Net()) && Inv(Net(), pa, pb)
      {
        StepKeeps(Net(), events[i], pa, pb);
        assert events[..i + 1][..i] == events[..i];
        Handle(events[i], pa, pb);
        i := i + 1;
      }
      assert events[..i] == events;
    }
  }

  lemma ValidIsSymmetric(d: Device, t: Device)
    requires Valid(d, t)
    ensures Valid(t, d)
  {
  }

  lemma NonemptyPool(d: Device, t: Device)
    requires Valid(d, t)
    ensures d.ppool == null <==> |d.Pool| == 0
  {
  }

  lemma EmptyQueue(d: Device, t: Device)
    requires d.rxQueue == null && d.Queue == [] && d.Frames == []
    ensures QueueOk(d, t)
  {
  }

  method LoadDevice(poolSize: int, kmalloc: nat -> bool) returns (d: Device)
    ensures fresh(d) && fresh(d.Pool) && PoolOk(d)
    ensures d.rxQueue == null && d.Queue == [] && Abs(d) == BootDev(|d.Pool|)
    ensures Grants(poolSize, kmalloc, |d.Pool|)
  {
    d := new Device();
    SetupPool(d, poolSize, kmalloc);
  }

  /** Module load: two devices, each with the packets kmalloc granted it. */
  method Load(napi: bool, poolSize: int, kmallocA: nat -> bool, kmallocB: nat -> bool) returns (m: Medium)
    ensures fresh(m.a) && fresh(m.b) && fresh(Packets(m.a, m.b)) && fresh(Packets(m.b, m.a))
    ensures Valid(m.a, m.b) && m.Net() == Boot(napi, |m.a.Pool|, |m.b.Pool|)
    ensures Grants(poolSize, kmallocA, |m.a.Pool|) && Grants(poolSize, kmallocB, |m.b.Pool|)
  {
    hide Linked, PoolOk, QueueOk;
    var a := LoadDevice(poolSize, kmallocA);
    var b := LoadDevice(poolSize, kmallocB);
    EmptyQueue(a, b);
    EmptyQueue(b, a);
    m := new Medium(a, b, napi);
  }

  /** Module load and any run after it, on a machine that could allocate at least one packet each. */
  method LoadAndRun(napi: bool, poolSize: int, kmallocA: nat -> bool, kmallocB: nat -> bool, events: seq<Event>)
    returns (m: Medium)
    requires poolSize > 0 && kmallocA(0) && kmallocB(0)
    ensures Valid(m.a, m.b)
    ensures exists pa, pb :: Grants(poolSize, kmallocA, pa) && Grants(poolSize, kmallocB, pb)
              && SnullNet.Run(Boot(napi, pa, pb), events) == Live(m.Net()) && Inv(m.Net(), pa, pb)
  {
    hide Linked, PoolOk, QueueOk, Packets, Step;
    m := Load(napi, poolSize, kmallocA, kmallocB);
    ghost var pa, pb := |m.a.Pool|, |m.b.Pool|;
    BootKeeps(napi, pa, pb);
    m.Run(events, pa, pb);
    assert SnullNet.Run(Boot(napi, pa, pb), events) == Live(m.Net());
  }
}
