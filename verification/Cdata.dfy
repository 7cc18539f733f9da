/** The buffered framebuffer device (Jollen/ldd-training/cdata.c): bytes collect in a small buffer,
    a timer (or close) flushes it into a framebuffer that is written round and round. */
module Cdata {
  import opened Bytes

  const BUF_SIZE := 128
  const LCD_SIZE: nat := 320 * 240 * 4

  // ---------------------------------------------------------------- unbuffered reference

  function Place(k: nat): (p: nat)
    ensures p < LCD_SIZE
  {
    k % LCD_SIZE
  }

  /** The framebuffer after the stream has been written to it directly, byte k at place k. */
  function Streamed(fb: seq<Byte>, stream: seq<Byte>): (r: seq<Byte>)
    requires |fb| == LCD_SIZE
    ensures |r| == LCD_SIZE
  {
    if stream == [] then fb
    else
      var n := |stream| - 1;
      Streamed(fb, stream[..n])[Place(n) := stream[n]]
  }

  lemma StreamedNext(fb: seq<Byte>, stream: seq<Byte>, n: nat)
    requires |fb| == LCD_SIZE && n < |stream|
    ensures Streamed(fb, stream[..n + 1]) == Streamed(fb, stream[..n])[Place(n) := stream[n]]
  {
    assert stream[..n + 1][..n] == stream[..n];
  }

  lemma PlacesDiffer(a: nat, b: nat)
    requires a < b < a + LCD_SIZE
    ensures Place(a) != Place(b)
  {
    assert a == LCD_SIZE * (a / LCD_SIZE) + Place(a);
    assert b == LCD_SIZE * (b / LCD_SIZE) + Place(b);
  }

  /** The screen shows the last screenful of the stream. */
  lemma {:induction false} ShowsLastScreenful(fb: seq<Byte>, stream: seq<Byte>, k: nat)
    requires |fb| == LCD_SIZE && k < |stream| <= k + LCD_SIZE
    ensures Streamed(fb, stream)[Place(k)] == stream[k]
    decreases |stream|
  {
    var n := |stream| - 1;
    if k < n {
      ShowsLastScreenful(fb, stream[..n], k);
      PlacesDiffer(k, n);
    }
  }

  /** Places the stream has not reached keep what they showed. */
  lemma {:induction false} KeepsTheRest(fb: seq<Byte>, stream: seq<Byte>, p: nat)
    requires |fb| == LCD_SIZE && |stream| <= p < LCD_SIZE
    ensures Streamed(fb, stream)[p] == fb[p]
    decreases |stream|
  {
    if stream != [] {
      KeepsTheRest(fb, stream[..|stream| - 1], p);
    }
  }

  lemma NextPlace(k: nat)
    ensures Place(k + 1) == if Place(k) + 1 >= LCD_SIZE then 0 else Place(k) + 1
  {
    assert k == LCD_SIZE * (k / LCD_SIZE) + Place(k);
    if Place(k) + 1 >= LCD_SIZE {
      assert k + 1 == LCD_SIZE * (k / LCD_SIZE + 1);
    } else {
      assert k + 1 == LCD_SIZE * (k / LCD_SIZE) + (Place(k) + 1);
    }
  }

  // ---------------------------------------------------------------- the driver

  class File {
    const fb: array<Byte>
    const buf: array<Byte>
    var index: nat
    var offset: nat
    ghost var start: seq<Byte>    // the framebuffer at open
    ghost var stream: seq<Byte>   // everything written since

    /** With idx bytes in the buffer: the rest of the stream is on the screen, these are not yet. */
    ghost predicate Holds(idx: nat)
      reads this`offset, this`start, this`stream, fb, buf
    {
      && fb != buf && fb.Length == LCD_SIZE == |start| && buf.Length == BUF_SIZE
      && idx <= BUF_SIZE && idx <= |stream|
      && buf[..idx] == stream[|stream| - idx..]
      && fb[..] == Streamed(start, stream[..|stream| - idx])
      && offset == Place(|stream| - idx)
    }

    ghost predicate Valid()
      reads this, fb, buf
    {
      Holds(index)
    }

    /** cdata_open */
    constructor (fb: array<Byte>)
      requires fb.Length == LCD_SIZE
      ensures Valid() && this.fb == fb && start == fb[..] && stream == [] && fresh(buf)
    {
      this.fb := fb;
      buf := new Byte[BUF_SIZE];
      index, offset, start, stream := 0, 0, fb[..], [];
    }

    /** flush_lcd */
    method FlushLcd()
      requires Valid()
      modifies this`index, this`offset, fb
      ensures Valid() && index == 0
    {
      hide Place, Streamed;
      var i, o := 0, offset;
      ghost var flushed := |stream| - index;
      while i < index
        invariant 0 <= i <= index && flushed + index == |stream| && index <= BUF_SIZE
        invariant fb != buf && fb.Length == LCD_SIZE == |start| && buf.Length == BUF_SIZE
        invariant buf[..index] == stream[flushed..]
        invariant fb[..] == Streamed(start, stream[..flushed + i])
        invariant o == Place(flushed + i)
      {
        assert buf[..index][i] == stream[flushed + i];
        StreamedNext(start, stream, flushed + i);
        NextPlace(flushed + i);
        fb[o] := buf[i];
        o := o + 1;
        if o >= LCD_SIZE {
          o := 0;
        }
        i := i + 1;
      }
      index, offset := 0, o;
    }

    /** The wait inside cdata_write: the timer flushes after some number of wake-ups. */
    method AwaitFlush(wakeups: nat)
      requires Valid()
      modifies this`index, this`offset, fb
      ensures Valid() && index == 0
    {
      var w := wakeups;
      while index != 0
        invariant Valid()
        decreases index, w
      {
        if w == 0 {
          FlushLcd();
        } else {
          w := w - 1;
        }
      }
    }

    /** cdata_write; delays(i) is how often the writer wakes up before the flush it waits for at byte i. */
    method Write(user: seq<Byte>, delays: nat -> nat)
      requires Valid()
      modifies this, fb, buf
      ensures Valid() && stream == old(stream) + user && start == old(start)
    {
      hide Holds;
      ghost var stream0 := stream;
      var idx: nat := index;
      var i := 0;
      while i < |user|
        invariant 0 <= i <= |user| && Holds(idx) && start == old(start)
        invariant stream == stream0 + user[..i]
      {
        if idx >= BUF_SIZE {
          index := idx;
          AwaitFlush(delays(i));
          idx := index;
        }
        StoreByte(idx, user[i]);
        assert user[..i + 1] == user[..i] + [user[i]];
        idx := idx + 1;
        i := i + 1;
      }
      assert user[..i] == user;
      index := idx;
    }

    method StoreByte(idx: nat, b: Byte)
      requires Holds(idx) && idx < BUF_SIZE
      modifies this`stream, buf
      ensures Holds(idx + 1) && stream == old(stream) + [b]
    {
      ghost var s := stream;
      buf[idx] := b;
      stream := stream + [b];
      assert stream[..|stream| - (idx + 1)] == s[..|s| - idx];
      assert stream[|stream| - (idx + 1)..] == s[|s| - idx..] + [b];
    }

    /** cdata_close */
    method Close()
      requires Valid()
      modifies this`index, this`offset, fb
      ensures fb[..] == Streamed(start, stream) && offset == Place(|stream|) && index == 0
    {
      FlushLcd();
      assert stream[..|stream|] == stream;
    }
  }

  function Concat(writes: seq<seq<Byte>>): seq<Byte> {
    if writes == [] then [] else Concat(writes[..|writes| - 1]) + writes[|writes| - 1]
  }

  /** open, any writes, close: the same picture as writing the whole stream directly, wherever the
      flushes fell. */
  method Session(fb: array<Byte>, writes: seq<seq<Byte>>, delays: (nat, nat) -> nat) returns (offset: nat)
    requires fb.Length == LCD_SIZE
    modifies fb
    ensures fb[..] == Streamed(old(fb[..]), Concat(writes))
    ensures offset == Place(|Concat(writes)|)
  {
    hide Streamed, Place;
    var f := new File(fb);
    var n := 0;
    assert writes[..0] == [];
    while n < |writes|
      invariant 0 <= n <= |writes| && f.Valid() && f.fb == fb && fresh(f) && fresh(f.buf)
      invariant f.start == old(fb[..]) && f.stream == Concat(writes[..n])
    {
      assert writes[..n + 1][..n] == writes[..n];
      f.Write(writes[n], i => delays(n, i));
      n := n + 1;
    }
    assert writes[..n] == writes;
    f.Close();
    offset := f.offset;
  }
}
