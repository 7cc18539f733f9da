/** The sbull RAM disk (015_sbull/sbull.c): a user count, a timer that simulates removal of the medium
    some time after the last close, and the data that survive it or not. */
module Sbull {
  import opened Bytes

  const SECTOR := 512

  datatype Dev = Dev(users: nat, mediaChange: bool, timerArmed: bool, warned: bool, data: seq<Byte>)

  datatype Event =
    | Open
    | Release
    | Expire
    | WriteSectors(sector: nat, bytes: seq<Byte>)
    | ReadSectors(sector: nat, count: nat)

  // ---------------------------------------------------------------- entry points

  /** A transfer that the device accepts. */
  predicate InRange(size: nat, sector: nat, length: nat) {
    sector * SECTOR + length <= size
  }

  function U64(x: nat): nat {
    x % 0x1_0000_0000_0000_0000
  }

  /** The test of sbull_transfer, in 64-bit arithmetic. */
  predicate Accepts(size: nat, sector: nat, nsect: nat) {
    U64(U64(sector * SECTOR) + U64(nsect * SECTOR)) <= size
  }

  lemma U64Add(a: nat, b: nat)
    ensures U64(U64(a) + U64(b)) == U64(a + b)
  {
    var m := 0x1_0000_0000_0000_0000;
    var qa, qb := a / m, b / m;
    assert a + b == m * (qa + qb) + (U64(a) + U64(b));
  }

  /** The test means what it says for every device exactly if the end of the transfer does not wrap
      around to a place that a device, whose size is a 31-bit number, can have. */
  lemma AcceptsExactly(sector: nat, nsect: nat)
    ensures (forall size: nat :: size < 0x8000_0000 ==>
               (Accepts(size, sector, nsect) <==> InRange(size, sector, nsect * SECTOR)))
            <==> U64((sector + nsect) * SECTOR) == (sector + nsect) * SECTOR
                 || U64((sector + nsect) * SECTOR) >= 0x8000_0000
  {
    var end := sector * SECTOR + nsect * SECTOR;
    assert end == (sector + nsect) * SECTOR;
    U64Add(sector * SECTOR, nsect * SECTOR);
    assert U64(end) <= end;
    hide U64;
    if U64(end) < end && U64(end) < 0x8000_0000 {
      assert Accepts(U64(end), sector, nsect) && !InRange(U64(end), sector, nsect * SECTOR);
    }
  }

  lemma NoWrap(size: nat, sector: nat, nsect: nat)
    requires size < 0x8000_0000 && InRange(size, sector, nsect * SECTOR)
    ensures U64(sector * SECTOR) == sector * SECTOR && U64(nsect * SECTOR) == nsect * SECTOR
    ensures Accepts(size, sector, nsect)
  {
  }

  function Stored(data: seq<Byte>, sector: nat, bytes: seq<Byte>): (r: seq<Byte>)
    ensures |r| == |data|
  {
    if InRange(|data|, sector, |bytes|)
    then data[..sector * SECTOR] + bytes + data[sector * SECTOR + |bytes|..] else data
  }

  /** sbull_revalidate */
  function Revalidated(d: Dev): Dev {
    if d.mediaChange then d.(mediaChange := false, data := Zeros(|d.data|)) else d
  }

  /** sbull_open: check_disk_change asks sbull_media_changed and revalidates if it says so. */
  function Opened(d: Dev): Dev {
    var d1 := d.(timerArmed := false);
    var d2 := if d.users == 0 then Revalidated(d1) else d1;
    d2.(users := d.users + 1)
  }

  function Released(d: Dev): Dev
    requires d.users > 0
  {
    d.(users := d.users - 1, timerArmed := d.timerArmed || d.users == 1)
  }

  /** sbull_invalidate on a device that has its memory */
  function Invalidated(d: Dev): Dev {
    var d1 := d.(timerArmed := false);
    if d.users > 0 then d1.(warned := true) else d1.(mediaChange := true)
  }

  /** Releases and transfers come only from users, expiries only from an armed timer. */
  function Step(d: Dev, e: Event): Dev {
    match e
    case Open => Opened(d)
    case Release => if d.users > 0 then Released(d) else d
    case Expire => if d.timerArmed then Invalidated(d) else d
    case WriteSectors(sector, bytes) => if d.users > 0 then d.(data := Stored(d.data, sector, bytes)) else d
    case ReadSectors(_, _) => d
  }

  function Run(d: Dev, events: seq<Event>): Dev {
    if events == [] then d else Step(Run(d, events[..|events| - 1]), events[|events| - 1])
  }

  /** setup_device: the memory comes as it is. */
  function Setup(memory: seq<Byte>): Dev {
    Dev(0, false, false, false, memory)
  }

  /** Users left when `users` had the device open, told from the opens and closes alone; a close with
      nobody left does not come. */
  function UsersAfter(users: nat, events: seq<Event>): nat {
    if events == [] then users
    else
      var u := UsersAfter(users, events[..|events| - 1]);
      match events[|events| - 1]
      case Open => u + 1
      case Release => if u > 0 then u - 1 else 0
      case _ => u
  }

  lemma {:induction false} UsersAreCounted(d: Dev, events: seq<Event>)
    ensures Run(d, events).users == UsersAfter(d.users, events)
    decreases |events|
  {
    if events != [] {
      UsersAreCounted(d, events[..|events| - 1]);
    }
  }

  // ---------------------------------------------------------------- safety

  ghost predicate Inv(d: Dev) {
    && (d.users > 0 ==> !d.timerArmed && !d.mediaChange)
    && (d.mediaChange ==> !d.timerArmed)
    && !d.warned
  }

  /** The check itself: an expiry warns exactly if somebody has the device open, and takes the medium
      away exactly if not. */
  lemma ExpiryExactly(d: Dev)
    requires d.timerArmed && !d.warned && !d.mediaChange
    ensures var r := Step(d, Expire);
            r.warned == (d.users > 0) && r.mediaChange == (d.users == 0) && !r.timerArmed
  {
  }

  /** In every run, while somebody has the device open the timer is not armed and the medium not gone,
      and the timer's sanity check never fails. */
  lemma {:induction false} RunKeepsFrom(d: Dev, events: seq<Event>)
    requires Inv(d)
    ensures Inv(Run(d, events)) && |Run(d, events).data| == |d.data|
    decreases |events|
  {
    if events != [] {
      RunKeepsFrom(d, events[..|events| - 1]);
    }
  }

  lemma RunKeeps(memory: seq<Byte>, events: seq<Event>)
    ensures var d := Run(Setup(memory), events);
            && Inv(d) && |d.data| == |memory|
            && (UsersAfter(0, events) > 0 ==> !d.timerArmed && !d.mediaChange)
  {
    RunKeepsFrom(Setup(memory), events);
    UsersAreCounted(Setup(memory), events);
  }

  // ---------------------------------------------------------------- sessions

  predicate Expires(events: seq<Event>) {
    exists i :: 0 <= i < |events| && events[i].Expire?
  }

  /** Between the last close and the next open only the timer can do anything. */
  lemma {:induction false} WhileClosed(d: Dev, events: seq<Event>)
    requires d.users == 0 && d.timerArmed && !d.mediaChange
    requires forall e :: e in events ==> !e.Open?
    ensures var r := Run(d, events);
            && r.users == 0 && r.data == d.data
            && r.mediaChange == Expires(events) && r.timerArmed == !Expires(events)
    decreases |events|
  {
    if events != [] {
      var init, last := events[..|events| - 1], events[|events| - 1];
      WhileClosed(d, init);
      if Expires(init) {
        var i :| 0 <= i < |init| && init[i].Expire?;
        assert events[i].Expire?;
      } else if last.Expire? {
        assert events[|events| - 1].Expire?;
      } else {
        assert forall i :: 0 <= i < |events| && events[i].Expire? ==> i < |init| && init[i].Expire?;
      }
    }
  }

  /** A session starts on a blank medium exactly when the timer expired since the last close, and on
      the previous contents otherwise. */
  lemma SessionStarts(memory: seq<Byte>, before: seq<Event>, closed: seq<Event>)
    requires UsersAfter(0, before) == 1
    requires forall e :: e in closed ==> !e.Open?
    ensures var d := Run(Setup(memory), before);
            var r := Run(Step(d, Release), closed);
            && Step(r, Open).users == 1
            && Step(r, Open).data == if Expires(closed) then Zeros(|memory|) else d.data
  {
    RunKeeps(memory, before);
    UsersAreCounted(Setup(memory), before);
    WhileClosed(Step(Run(Setup(memory), before), Release), closed);
  }

  /** Somebody has the device open all along, if `users` had it open before. */
  ghost predicate StaysOpen(users: nat, events: seq<Event>) {
    forall i :: 0 <= i <= |events| ==> UsersAfter(users, events[..i]) > 0
  }

  /** The byte that the last accepted write to position p left there, or b. */
  function LastWritten(events: seq<Event>, size: nat, p: nat, b: Byte): Byte {
    if events == [] then b
    else
      var e := events[|events| - 1];
      if e.WriteSectors? && e.sector * 512 + |e.bytes| <= size && e.sector * 512 <= p < e.sector * 512 + |e.bytes|
      then e.bytes[p - e.sector * 512]
      else LastWritten(events[..|events| - 1], size, p, b)
  }

  lemma StepByte(d: Dev, e: Event, p: nat)
    requires d.users > 0 && p < |d.data|
    ensures |Step(d, e).data| == |d.data|
    ensures Step(d, e).data[p] ==
            if e.WriteSectors? && e.sector * 512 + |e.bytes| <= |d.data|
               && e.sector * 512 <= p < e.sector * 512 + |e.bytes|
            then e.bytes[p - e.sector * 512] else d.data[p]
  {
  }

  /** While open, every byte is what the last in-range write put there. */
  lemma {:induction false} ContentsChangeOnlyByWrites(d: Dev, events: seq<Event>, p: nat)
    requires StaysOpen(d.users, events) && p < |d.data|
    ensures var r := Run(d, events);
            |r.data| == |d.data| && r.data[p] == LastWritten(events, |d.data|, p, d.data[p])
    decreases |events|
  {
    hide Step, InRange;
    if events != [] {
      var n := |events| - 1;
      var init := events[..n];
      forall i | 0 <= i <= |init|
        ensures UsersAfter(d.users, init[..i]) > 0
      {
        assert init[..i] == events[..i];
      }
      ContentsChangeOnlyByWrites(d, init, p);
      assert events[..n] == init;
      UsersAreCounted(d, init);
      StepByte(Run(d, init), events[n], p);
    }
  }

  // ---------------------------------------------------------------- the device

  /** What Transfer needs of a request to a device of the given size. */
  predicate TransferOk(size: nat, sector: nat, length: nat) {
    length % SECTOR == 0 && (Accepts(size, sector, length / SECTOR) ==> InRange(size, sector, length))
  }

  predicate EventOk(size: nat, e: Event) {
    match e
    case WriteSectors(sector, bytes) => TransferOk(size, sector, |bytes|)
    case ReadSectors(sector, count) => TransferOk(size, sector, count)
    case _ => true
  }

  class Disk {
    var users: nat
    var mediaChange: bool
    var timerArmed: bool
    var warned: bool
    const data: array<Byte>

    ghost function Abs(): Dev
      reads this, data
    {
      Dev(users, mediaChange, timerArmed, warned, data[..])
    }

    constructor (nsectors: nat, hardsectSize: nat)
      ensures Abs() == Setup(data[..]) && data.Length == nsectors * hardsectSize && fresh(data)
    {
      users, mediaChange, timerArmed, warned := 0, false, false, false;
      data := new Byte[nsectors * hardsectSize];
    }

    /** sbull_transfer. The device's size is an int, and a transfer whose end wraps around to a place
        on the device does not come. On a read beyond the end the caller's buffer is left alone. */
    method Transfer(sector: nat, nsect: nat, buffer: seq<Byte>, write: bool) returns (buffer': seq<Byte>)
      requires |buffer| == nsect * SECTOR && data.Length < 0x8000_0000
      requires Accepts(data.Length, sector, nsect) ==> InRange(data.Length, sector, |buffer|)
      modifies data
      ensures Abs() == if write then old(Abs()).(data := Stored(old(data[..]), sector, buffer)) else old(Abs())
      ensures buffer' == if !write && sector * 512 + |buffer| <= data.Length
                         then data[sector * 512..sector * 512 + |buffer|] else buffer
    {
      buffer' := buffer;
      var offset, nbytes := U64(sector * SECTOR), U64(nsect * SECTOR);
      if InRange(data.Length, sector, |buffer|) {
        NoWrap(data.Length, sector, nsect);
      }
      if U64(offset + nbytes) > data.Length {
        return;
      }
      if write {
        forall i | 0 <= i < nbytes {
          data[offset + i] := buffer[i];
        }
        assert data[..] == Stored(old(data[..]), sector, buffer);
      } else {
        buffer' := data[offset..offset + nbytes];
      }
    }

    method Revalidate()
      modifies this`mediaChange, data
      ensures Abs() == Revalidated(old(Abs()))
    {
      if mediaChange {
        mediaChange := false;
        forall i | 0 <= i < data.Length {
          data[i] := 0;
        }
        assert data[..] == Zeros(data.Length);
      }
    }

    method OnOpen()
      modifies this, data
      ensures Abs() == Opened(old(Abs()))
    {
      timerArmed := false;
      if users == 0 {
        if mediaChange {
          Revalidate();
        }
      }
      users := users + 1;
    }

    method OnRelease()
      requires users > 0
      modifies this
      ensures Abs() == Released(old(Abs()))
    {
      users := users - 1;
      if users == 0 {
        timerArmed := true;
      }
    }

    method Invalidate()
      modifies this
      ensures Abs() == Invalidated(old(Abs()))
      ensures warned == (old(warned) || users > 0) && mediaChange == (old(mediaChange) || users == 0)
    {
      timerArmed := false;
      if users > 0 {
        warned := true;
      } else {
        mediaChange := true;
      }
    }

    method OnEvent(e: Event)
      requires data.Length < 0x8000_0000 && EventOk(data.Length, e)
      modifies this, data
      ensures Abs() == Step(old(Abs()), e)
    {
      hide InRange, Accepts;
      match e {
        case Open => OnOpen();
        case Release => if users > 0 { OnRelease(); }
        case Expire => if timerArmed { Invalidate(); }
        case WriteSectors(sector, bytes) =>
          if users > 0 {
            var _ := Transfer(sector, |bytes| / SECTOR, bytes, true);
          }
        case ReadSectors(sector, count) =>
          if users > 0 {
            var _ := Transfer(sector, count / SECTOR, Zeros(count), false);
          }
      }
    }

    /** Any sequence of opens, closes, transfers and expiries: in memory too, an open device never has
        its timer armed or its medium gone. */
    method OnEvents(events: seq<Event>)
      requires Inv(Abs()) && data.Length < 0x8000_0000
      requires forall i :: 0 <= i < |events| ==> EventOk(data.Length, events[i])
      modifies this, data
      ensures Abs() == Run(old(Abs()), events) && Inv(Abs())
    {
      hide Inv, Step;
      ghost var d := Abs();
      for i := 0 to |events|
        invariant Abs() == Run(d, events[..i])
      {
        assert events[..i + 1][..i] == events[..i];
        OnEvent(events[i]);
      }
      assert events[..|events|] == events;
      RunKeepsFrom(d, events);
    }
  }
}
