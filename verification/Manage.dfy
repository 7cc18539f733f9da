/** The e1000 management host interface: a byte buffer written dword by dword into device RAM with a
    running sum, and the command header whose checksum covers both (e1000_manage.c). Device RAM is
    kept as bytes in the order in which a dword lies in host memory. */
module Manage {
  import opened Bytes

  const MAX_MNG_DATA_LENGTH := 0x6F8
  const COOKIE_OFFSET := 0x6F0
  const COOKIE_LENGTH := 0x10
  const RAM_SIZE := 1792
  const DHCP_TX_PAYLOAD_CMD: Byte := 64
  const COMMAND_TIMEOUT := 10
  const IAMT_SIGNATURE: seq<Byte> := [0x49, 0x41, 0x4D, 0x54]   // 0x544D4149, low byte first

  datatype Status = Success | ErrParam | ErrHostInterface

  function U16(x: int): (r: nat)
    ensures 0 <= x < 0x10000 ==> r == x
    ensures -0x10000 <= x < 0 ==> r == x + 0x10000
  {
    x % 0x10000
  }

  // ---------------------------------------------------------------- specification

  /** Bytes from position p up to the next dword boundary. */
  function Pad(p: nat): (n: nat)
    ensures n < 4 && (p + n) % 4 == 0
  {
    (4 - p % 4) % 4
  }

  /** RAM after writing data at offset: data in place, the rest of its last dword zeroed, nothing
      else touched. */
  function Written(ram: seq<Byte>, offset: nat, data: seq<Byte>): (r: seq<Byte>)
    requires offset + |data| + Pad(offset + |data|) <= |ram|
    ensures |r| == |ram|
  {
    var end := offset + |data|;
    ram[..offset] + data + Zeros(Pad(end)) + ram[end + Pad(end)..]
  }

  /** Byte by byte. */
  lemma WrittenAt(ram: seq<Byte>, offset: nat, data: seq<Byte>, p: nat)
    requires data != [] && offset + |data| + Pad(offset + |data|) <= |ram| && p < |ram|
    ensures var end := offset + |data|;
            Written(ram, offset, data)[p] ==
            if offset <= p < end then data[p - offset]
            else if end <= p && p / 4 == (end - 1) / 4 then 0
            else ram[p]
  {
  }

  /** How many bytes the write takes from the buffer, in the source's 16-bit arithmetic. */
  function Taken(length: nat, offset: nat): nat {
    if offset % 4 == 0 then length else 4 - offset % 4 + U16(length - (4 - offset % 4))
  }

  predicate Accepted(length: nat, offset: nat) {
    length != 0 && offset + length <= MAX_MNG_DATA_LENGTH
  }

  /** The write takes the bytes it was given exactly when it starts on a dword boundary or reaches
      the next one; otherwise the remaining length wraps round and it takes 65536 more. */
  lemma TakenExactly(length: nat, offset: nat)
    requires Accepted(length, offset)
    ensures Taken(length, offset) == length <==> offset % 4 == 0 || length >= 4 - offset % 4
    ensures Taken(length, offset) != length ==> Taken(length, offset) == length + 0x10000
  {
    hide U16;
  }

  /** The value that makes a byte string sum to zero modulo 256. */
  function Negated(sum: nat): Byte {
    (256 - sum % 256) % 256
  }

  // ---------------------------------------------------------------- the write

  method CalculateChecksum(buffer: seq<Byte>) returns (r: Byte)
    ensures (Sum(buffer) + r as int) % 256 == 0
    ensures r == Negated(Sum(buffer))
  {
    var sum: Byte := 0;
    var i := 0;
    while i < |buffer|
      invariant 0 <= i <= |buffer| && sum == U8(Sum(buffer[..i]))
    {
      assert buffer[..i + 1][..i] == buffer[..i];
      U8Add(Sum(buffer[..i]), buffer[i]);
      sum := U8(sum as int + buffer[i] as int);
      i := i + 1;
    }
    assert buffer[..i] == buffer;
    r := (256 - sum as int) % 256;
  }

  method WriteDword(ram: array<Byte>, index: nat, d: seq<Byte>)
    requires |d| == 4 && 4 * index + 4 <= ram.Length
    modifies ram
    ensures ram[..] == old(ram[..4 * index]) + d + old(ram[4 * index + 4..])
  {
    ram[4 * index], ram[4 * index + 1] := d[0], d[1];
    ram[4 * index + 2], ram[4 * index + 3] := d[2], d[3];
  }

  lemma SmallU8(b: Byte)
    ensures U8(b) == b
  {
  }

  lemma SumNone(s: seq<Byte>)
    requires s == []
    ensures Sum(s) == 0
  {
  }

  lemma SumNext(mem: seq<Byte>, pos: nat, n: nat)
    requires pos + n < |mem|
    ensures Sum(mem[pos..pos + n + 1]) == Sum(mem[pos..pos + n]) + mem[pos + n] as int
  {
    var m := mem[pos..pos + n + 1];
    assert m[..|m| - 1] == mem[pos..pos + n];
    assert m[|m| - 1] == mem[pos + n];
  }

  /** The inner loops: bytes mem[pos..] go into d[lo..hi] and into the running sum. */
  method TakeBytes(d0: seq<Byte>, lo: nat, hi: nat, mem: seq<Byte>, pos: nat, sum0: Byte)
    returns (d: seq<Byte>, sum: Byte)
    requires lo <= hi <= 4 && |d0| == 4 && pos + (hi - lo) <= |mem|
    ensures d == d0[..lo] + mem[pos..pos + (hi - lo)] + d0[hi..]
    ensures sum == U8(sum0 as int + Sum(mem[pos..pos + (hi - lo)]))
  {
    hide U8, Sum;
    d, sum := d0, sum0;
    SmallU8(sum0);
    var j := lo;
    SumNone(mem[pos..pos]);
    while j < hi
      invariant lo <= j <= hi && |d| == 4
      invariant forall k :: 0 <= k < 4 ==> d[k] == if lo <= k < j then mem[pos + (k - lo)] else d0[k]
      invariant sum == U8(sum0 as int + Sum(mem[pos..pos + (j - lo)]))
    {
      SumNext(mem, pos, j - lo);
      d := d[j := mem[pos + (j - lo)]];
      U8Add(sum0 as int + Sum(mem[pos..pos + (j - lo)]), d[j]);
      sum := U8(sum as int + d[j] as int);
      j := j + 1;
    }
  }

  /** After some of the buffer has gone out: pos bytes taken, RAM and sum to match. */
  ghost predicate Progress(ram: seq<Byte>, ram0: seq<Byte>, offset: nat, mem: seq<Byte>, pos: nat, sum: Byte, sum0: Byte) {
    && pos <= |mem| && offset + pos <= |ram0|
    && ram == ram0[..offset] + mem[..pos] + ram0[offset + pos..]
    && sum == U8(sum0 as int + Sum(mem[..pos]))
  }

  lemma ProgressStart(ram0: seq<Byte>, offset: nat, mem: seq<Byte>, sum0: Byte)
    requires offset <= |ram0|
    ensures Progress(ram0, ram0, offset, mem, 0, sum0, sum0)
  {
    assert mem[..0] == [];
  }

  lemma ProgressDone(ram: seq<Byte>, ram0: seq<Byte>, offset: nat, mem: seq<Byte>, pos: nat, sum: Byte, sum0: Byte)
    requires Progress(ram, ram0, offset, mem, pos, sum, sum0) && (offset + pos) % 4 == 0
    ensures Pad(offset + pos) == 0
    ensures ram == Written(ram0, offset, mem[..pos])
    ensures sum == U8(sum0 as int + Sum(mem[..pos]))
  {
  }

  lemma SumExtends(mem: seq<Byte>, pos: nat, n: nat, sum0: nat)
    requires pos + n <= |mem|
    ensures U8(sum0 + Sum(mem[..pos + n])) == U8(U8(sum0 + Sum(mem[..pos])) as int + Sum(mem[pos..pos + n]))
  {
    assert mem[..pos + n] == mem[..pos] + mem[pos..pos + n];
    SumConcat(mem[..pos], mem[pos..pos + n]);
    U8Add(sum0 + Sum(mem[..pos]), Sum(mem[pos..pos + n]));
  }

  /** Storing the next dword: n bytes of the buffer and 4 - n zeros. */
  lemma Splice(ram: seq<Byte>, ram0: seq<Byte>, offset: nat, mem: seq<Byte>, pos: nat, n: nat, r: seq<Byte>,
               sum: Byte, sum0: Byte, sum': Byte)
    requires 0 < n <= 4 && pos + n <= |mem| && offset + pos + 4 <= |ram0| && (offset + pos) % 4 == 0
    requires Progress(ram, ram0, offset, mem, pos, sum, sum0)
    requires r == ram[..offset + pos] + (mem[pos..pos + n] + Zeros(4 - n)) + ram[offset + pos + 4..]
    requires sum' == U8(sum as int + Sum(mem[pos..pos + n]))
    ensures Pad(offset + pos + n) == 4 - n
    ensures r == Written(ram0, offset, mem[..pos + n])
    ensures sum' == U8(sum0 as int + Sum(mem[..pos + n]))
    ensures n == 4 ==> Progress(r, ram0, offset, mem, pos + 4, sum', sum0)
  {
    hide U8, Pad, Sum;
    PadIs(offset + pos, n);
    SumExtends(mem, pos, n, sum0);
    SpliceBytes(ram, ram0, offset, mem, pos, n, r);
    if n == 4 {
      assert ram0[..offset] + mem[..pos + 4] + Zeros(0) == ram0[..offset] + mem[..pos + 4];
    }
  }

  lemma SpliceBytes(ram: seq<Byte>, ram0: seq<Byte>, offset: nat, mem: seq<Byte>, pos: nat, n: nat, r: seq<Byte>)
    requires n <= 4 && pos + n <= |mem| && offset + pos + 4 <= |ram0|
    requires ram == ram0[..offset] + mem[..pos] + ram0[offset + pos..]
    requires r == ram[..offset + pos] + (mem[pos..pos + n] + Zeros(4 - n)) + ram[offset + pos + 4..]
    ensures r == ram0[..offset] + mem[..pos + n] + Zeros(4 - n) + ram0[offset + pos + 4..]
  {
    assert ram[..offset + pos] == ram0[..offset] + mem[..pos];
    assert ram[offset + pos + 4..] == ram0[offset + pos + 4..];
    assert mem[..pos + n] == mem[..pos] + mem[pos..pos + n];
  }

  lemma PadIs(p: nat, n: nat)
    requires p % 4 == 0 && n <= 4
    ensures Pad(p + n) == (4 - n) % 4
  {
  }

  lemma FilledUp(m: seq<Byte>, d: seq<Byte>)
    requires |m| <= 4 && d == [0, 0, 0, 0][..0] + m + [0, 0, 0, 0][|m|..]
    ensures d == m + Zeros(4 - |m|)
  {
    assert [0, 0, 0, 0][|m|..] == Zeros(4 - |m|);
  }

  /** One whole dword of the buffer. */
  method WriteWhole(ram: array<Byte>, ghost ram0: seq<Byte>, ghost offset: nat, index: nat,
                    mem: seq<Byte>, pos: nat, sum: Byte, ghost sum0: Byte) returns (sum': Byte)
    requires Progress(ram[..], ram0, offset, mem, pos, sum, sum0)
    requires pos + 4 <= |mem| && offset + pos == 4 * index && 4 * index + 4 <= ram.Length == |ram0|
    modifies ram
    ensures Progress(ram[..], ram0, offset, mem, pos + 4, sum', sum0)
  {
    hide U8, Progress, Sum;
    ghost var ram1 := ram[..];
    var d: seq<Byte>;
    d, sum' := TakeBytes([0, 0, 0, 0], 0, 4, mem, pos, sum);
    FilledUp(mem[pos..pos + 4], d);
    WriteDword(ram, index, d);
    assert ram[..] == ram1[..4 * index] + d + ram1[4 * index + 4..];
    Splice(ram1, ram0, offset, mem, pos, 4, ram[..], sum, sum0, sum');
  }

  /** The bytes up to the first dword boundary, merged into the dword that is already there. */
  method WriteHead(ram: array<Byte>, index: nat, prev: nat, mem: seq<Byte>, sum: Byte) returns (sum': Byte)
    requires 0 < prev < 4 && 4 * index + 4 <= ram.Length && 4 - prev <= |mem|
    modifies ram
    ensures Progress(ram[..], old(ram[..]), 4 * index + prev, mem, 4 - prev, sum', sum)
  {
    hide U8, Sum;
    ghost var ram0 := ram[..];
    var d0: seq<Byte> := ram[4 * index..4 * index + 4];
    assert d0 == ram0[4 * index..4 * index + 4];
    var d: seq<Byte>;
    d, sum' := TakeBytes(d0, prev, 4, mem, 0, sum);
    assert mem[0..4 - prev] == mem[..4 - prev];
    WriteDword(ram, index, d);
    assert ram[..] == ram0[..4 * index] + d + ram0[4 * index + 4..];
    HeadBytes(ram0, index, prev, d0, mem[..4 - prev], d, ram[..]);
  }

  lemma HeadBytes(ram0: seq<Byte>, index: nat, prev: nat, d0: seq<Byte>, m: seq<Byte>, d: seq<Byte>, r: seq<Byte>)
    requires 0 < prev < 4 && 4 * index + 4 <= |ram0| && |m| == 4 - prev
    requires d0 == ram0[4 * index..4 * index + 4] && d == d0[..prev] + m + d0[4..]
    requires r == ram0[..4 * index] + d + ram0[4 * index + 4..]
    ensures r == ram0[..4 * index + prev] + m + ram0[4 * index + 4..]
  {
    assert ram0[..4 * index + prev] == ram0[..4 * index] + d0[..prev];
    assert d == d0[..prev] + m;
  }

  /** The last, partial dword, filled up with zeros. */
  method WriteTail(ram: array<Byte>, ghost ram0: seq<Byte>, ghost offset: nat, index: nat, remaining: nat,
                   mem: seq<Byte>, pos: nat, sum: Byte, ghost sum0: Byte) returns (sum': Byte)
    requires Progress(ram[..], ram0, offset, mem, pos, sum, sum0)
    requires 0 < remaining < 4 && pos + remaining <= |mem|
    requires offset + pos == 4 * index && 4 * index + 4 <= ram.Length == |ram0|
    modifies ram
    ensures Pad(offset + pos + remaining) == 4 - remaining
    ensures ram[..] == Written(ram0, offset, mem[..pos + remaining])
    ensures sum' == U8(sum0 as int + Sum(mem[..pos + remaining]))
  {
    hide U8, Pad, Progress, Sum, Written;
    ghost var ram1 := ram[..];
    var d: seq<Byte>;
    d, sum' := TakeBytes([0, 0, 0, 0], 0, remaining, mem, pos, sum);
    assert |mem[pos..pos + remaining]| == remaining;
    FilledUp(mem[pos..pos + remaining], d);
    WriteDword(ram, index, d);
    assert ram[..] == ram1[..4 * index] + d + ram1[4 * index + 4..];
    Splice(ram1, ram0, offset, mem, pos, remaining, ram[..], sum, sum0, sum');
  }

  /** e1000_mng_host_if_write_generic. mem is the memory at the buffer pointer; it must hold what the
      code takes from it, which is `length` bytes unless the length wraps (TakenExactly). */
  method HostIfWrite(ram: array<Byte>, mem: seq<Byte>, length0: nat, offset: nat, sum0: Byte)
    returns (rc: Status, sum: Byte)
    requires length0 < 0x10000 && offset < 0x10000
    requires Accepted(length0, offset) ==>
               var n := Taken(length0, offset);
               n <= |mem| && offset + n + Pad(offset + n) <= ram.Length
    modifies ram
    ensures rc == ErrParam <==> length0 == 0 || offset + length0 > 0x6F8
    ensures !Accepted(length0, offset) ==> rc == ErrParam && ram[..] == old(ram[..]) && sum == sum0
    ensures Accepted(length0, offset) ==>
              var data := mem[..Taken(length0, offset)];
              && rc == Success
              && ram[..] == Written(old(ram[..]), offset, data)
              && sum == U8(sum0 as int + Sum(data))
  {
    hide U8, U16, Pad, Progress, Written;
    if length0 == 0 || offset + length0 > MAX_MNG_DATA_LENGTH {
      return ErrParam, sum0;
    }
    ghost var ram0 := ram[..];
    ghost var taken := Taken(length0, offset);
    sum := sum0;
    ProgressStart(ram0, offset, mem, sum0);
    var prev, index, length, pos := offset % 4, offset / 4, length0, 0;
    if prev != 0 {
      assert 4 * index + 4 <= ram.Length && 4 - prev <= taken;
      sum := WriteHead(ram, index, prev, mem, sum);
      pos := 4 - prev;
      length := U16(length0 - (4 - prev));
      index := index + 1;
    }
    assert pos + length == taken && offset + pos == 4 * index;
    sum := WriteBody(ram, ram0, offset, index, length, mem, pos, sum, sum0);
    return Success, sum;
  }

  /** The part after the first boundary: whole dwords, then the partial one. */
  method WriteBody(ram: array<Byte>, ghost ram0: seq<Byte>, ghost offset: nat, index: nat, length: nat,
                   mem: seq<Byte>, pos0: nat, sum1: Byte, ghost sum0: Byte) returns (sum: Byte)
    requires Progress(ram[..], ram0, offset, mem, pos0, sum1, sum0)
    requires offset + pos0 == 4 * index && pos0 + length <= |mem|
    requires offset + pos0 + length + Pad(offset + pos0 + length) <= ram.Length == |ram0|
    modifies ram
    ensures ram[..] == Written(ram0, offset, mem[..pos0 + length])
    ensures sum == U8(sum0 as int + Sum(mem[..pos0 + length]))
  {
    hide U8, Progress, Written, Sum, Pad;
    sum := sum1;
    var remaining, dwords := length % 4, length / 4;
    var i, pos := 0, pos0;
    while i < dwords
      invariant 0 <= i <= dwords && pos == pos0 + 4 * i
      invariant Progress(ram[..], ram0, offset, mem, pos, sum, sum0)
    {
      sum := WriteWhole(ram, ram0, offset, index + i, mem, pos, sum, sum0);
      pos := pos + 4;
      i := i + 1;
    }
    assert pos + remaining == pos0 + length;
    if remaining != 0 {
      PadIs(4 * (index + i), remaining);
      sum := WriteTail(ram, ram0, offset, index + i, remaining, mem, pos, sum, sum0);
    } else {
      ProgressDone(ram[..], ram0, offset, mem, pos, sum, sum0);
    }
  }

  // ---------------------------------------------------------------- DHCP command

  /** The command header: id, checksum, two reserved words, length. */
  function Header(checksum: Byte, length: nat): (h: seq<Byte>)
    requires length < 0x10000
    ensures |h| == 8
  {
    [DHCP_TX_PAYLOAD_CMD, checksum, 0, 0, 0, 0, length % 256, length / 256]
  }

  /** RAM after a successful DHCP-info write. */
  function DhcpRam(ram: seq<Byte>, payload: seq<Byte>): (r: seq<Byte>)
    requires |ram| == RAM_SIZE && Accepted(|payload|, 8)
    ensures |r| == RAM_SIZE
  {
    Header(Negated(Sum(Header(U8(Sum(payload)), |payload|))), |payload|) + Written(ram, 8, payload)[8..]
  }

  /** The fields of struct e1000_host_mng_command_header in RAM, and the payload behind them. With the
      sum of all that being zero (DhcpSumsToZero) this fixes the checksum in byte 1. */
  lemma DhcpLayout(ram: seq<Byte>, payload: seq<Byte>)
    requires |ram| == RAM_SIZE && 0 < |payload| <= 0x6F0
    ensures var r := DhcpRam(ram, payload);
            && r[0] == 64
            && r[2..6] == [0, 0, 0, 0]
            && r[6] as int + 256 * r[7] as int == |payload|
            && r[8..8 + |payload|] == payload
            && (forall p :: 8 + |payload| <= p < RAM_SIZE ==>
                  r[p] == if p / 4 == (7 + |payload|) / 4 then 0 else ram[p])
  {
    hide Negated, U8, Sum;
    var r, w := DhcpRam(ram, payload), Written(ram, 8, payload);
    DhcpParts(ram, payload);
    assert r[8..] == w[8..];
    forall p | 8 + |payload| <= p < RAM_SIZE
      ensures r[p] == if p / 4 == (7 + |payload|) / 4 then 0 else ram[p]
    {
      assert r[p] == r[8..][p - 8] == w[p];
      WrittenAt(ram, 8, payload, p);
    }
  }

  lemma HeaderSum(c: Byte, length: nat)
    requires length < 0x10000
    ensures Sum(Header(c, length)) == 64 + c as int + length % 256 + length / 256
  {
    var h := Header(c, length);
    assert h[..8] == h && h[..7][..6] == h[..6] && h[..6][..5] == h[..5] && h[..5][..4] == h[..4];
    assert h[..4][..3] == h[..3] && h[..3][..2] == h[..2] && h[..2][..1] == h[..1] && h[..1][..0] == [];
    assert Sum(h) == Sum(h[..7]) + h[7] as int;
    assert Sum(h[..7]) == Sum(h[..6]) + h[6] as int;
    assert Sum(h[..6]) == Sum(h[..5]) && Sum(h[..5]) == Sum(h[..4]) && Sum(h[..4]) == Sum(h[..3]);
    assert Sum(h[..3]) == Sum(h[..2]);
    assert Sum(h[..2]) == Sum(h[..1]) + h[1] as int;
    assert Sum(h[..1]) == Sum(h[..0]) + h[0] as int;
  }

  lemma U8Is(x: nat) returns (q: nat)
    ensures x == 256 * q + U8(x) as int
  {
    q := x / 256;
  }

  lemma NegatedIs(x: nat) returns (k: nat)
    ensures x + Negated(x) as int == 256 * k
  {
    k := if x % 256 == 0 then x / 256 else x / 256 + 1;
  }

  lemma ChecksumCancels(base: nat, p: nat)
    ensures (base + Negated(base + U8(p) as int) as int + p) % 256 == 0
  {
    hide Negated, U8;
    var q := U8Is(p);
    var k := NegatedIs(base + U8(p) as int);
    assert base + Negated(base + U8(p) as int) as int + p == 256 * (q + k);
  }

  lemma DhcpParts(ram: seq<Byte>, payload: seq<Byte>)
    requires |ram| == RAM_SIZE && Accepted(|payload|, 8)
    ensures var r := DhcpRam(ram, payload);
            r[8..8 + |payload|] == payload && r[..8 + |payload|] == r[..8] + payload
  {
    hide Negated, U8, Sum, Header;
    var r, w := DhcpRam(ram, payload), Written(ram, 8, payload);
    assert w[8..8 + |payload|] == payload;
    assert r[8..] == w[8..];
    assert r[8..8 + |payload|] == w[8..8 + |payload|];
  }

  /** The firmware's test: header and payload bytes add up to zero, whatever was written. */
  lemma DhcpSumsToZero(ram: seq<Byte>, payload: seq<Byte>)
    requires |ram| == RAM_SIZE && Accepted(|payload|, 8)
    ensures Sum(DhcpRam(ram, payload)[..8 + |payload|]) % 256 == 0
    ensures DhcpRam(ram, payload)[8..8 + |payload|] == payload
  {
    var r, len := DhcpRam(ram, payload), |payload|;
    var h := r[..8];
    DhcpParts(ram, payload);
    SumConcat(h, payload);
    var base := 64 + len % 256 + len / 256;
    HeaderSum(U8(Sum(payload)), len);
    HeaderSum(Negated(base + U8(Sum(payload)) as int), len);
    ChecksumCancels(base, Sum(payload));
    hide Negated, U8;
    assert h == Header(Negated(base + U8(Sum(payload)) as int), len);
  }

  /** The cookie the firmware keeps above the command area survives every payload of a given length
      exactly when the command ends below it; the length check alone does not ensure that. */
  lemma CookieSurvivesExactly(ram: seq<Byte>, length: nat)
    requires |ram| == RAM_SIZE && Accepted(length, 8)
    ensures (forall payload: seq<Byte> :: |payload| == length ==>
               DhcpRam(ram, payload)[0x6F0..0x700] == ram[0x6F0..0x700])
            <==> 8 + length <= 0x6F0
  {
    if 8 + length <= COOKIE_OFFSET {
      forall payload: seq<Byte> | |payload| == length
        ensures DhcpRam(ram, payload)[0x6F0..0x700] == ram[0x6F0..0x700]
      {
        CookieBeyond(ram, payload);
      }
    } else {
      var other: Byte := if ram[COOKIE_OFFSET] == 0 then 1 else 0;
      var payload: seq<Byte> := seq(length, _ => other);
      var r := DhcpRam(ram, payload);
      assert r[COOKIE_OFFSET] == Written(ram, 8, payload)[COOKIE_OFFSET] == payload[COOKIE_OFFSET - 8] == other;
      assert r[0x6F0..0x700][0] == other && ram[0x6F0..0x700][0] == ram[COOKIE_OFFSET];
    }
  }

  lemma CookieBeyond(ram: seq<Byte>, payload: seq<Byte>)
    requires |ram| == RAM_SIZE && Accepted(|payload|, 8) && 8 + |payload| <= COOKIE_OFFSET
    ensures Cookie(DhcpRam(ram, payload)) == Cookie(ram)
  {
    hide Header, Negated, U8, Sum;
    var r, w := DhcpRam(ram, payload), Written(ram, 8, payload);
    var end := 8 + |payload| + Pad(8 + |payload|);
    assert end <= COOKIE_OFFSET;
    var front := ram[..8] + payload + Zeros(Pad(8 + |payload|));
    assert |front| == end && w == front + ram[end..];
    assert r[8..] == w[8..];
    forall i | COOKIE_OFFSET <= i < RAM_SIZE
      ensures r[i] == ram[i]
    {
      assert r[i] == r[8..][i - 8] == w[8..][i - 8] == w[i];
      assert w[i] == ram[end..][i - end];
    }
  }

  function Cookie(ram: seq<Byte>): (c: seq<Byte>)
    requires |ram| == RAM_SIZE
    ensures |c| == COOKIE_LENGTH
  {
    ram[COOKIE_OFFSET..COOKIE_OFFSET + COOKIE_LENGTH]
  }

  /** What a read of the host interface control register shows. */
  datatype Hicr = Hicr(enabled: bool, command: bool)

  /** The interface is up and one of the ten polls finds the previous command done. */
  predicate HostIfReady(arcValid: bool, hicr: nat -> Hicr) {
    arcValid && hicr(0).enabled && exists i :: 1 <= i <= COMMAND_TIMEOUT && !hicr(i).command
  }

  class Hw {
    const ram: array<Byte>
    var arcSubsystemValid: bool
    var commandPending: bool
    var txPktFiltering: bool

    constructor (arcValid: bool)
      ensures ram.Length == RAM_SIZE && fresh(ram) && arcSubsystemValid == arcValid
    {
      ram := new Byte[RAM_SIZE](_ => 0);
      arcSubsystemValid, commandPending, txPktFiltering := arcValid, false, false;
    }

    /** e1000_mng_enable_host_if_generic; hicr(n) is the n-th read of the control register. */
    method EnableHostIf(hicr: nat -> Hicr) returns (rc: Status)
      ensures rc == if HostIfReady(arcSubsystemValid, hicr) then Success else ErrHostInterface
      ensures rc == Success <==>
                arcSubsystemValid && hicr(0).enabled && exists i :: 1 <= i <= 10 && !hicr(i).command
    {
      if !arcSubsystemValid {
        return ErrHostInterface;
      }
      if !hicr(0).enabled {
        return ErrHostInterface;
      }
      var i := 0;
      while i < COMMAND_TIMEOUT
        invariant 0 <= i <= COMMAND_TIMEOUT
        invariant forall k :: 1 <= k <= i ==> hicr(k).command
      {
        if !hicr(i + 1).command {
          break;
        }
        i := i + 1;
      }
      if i == COMMAND_TIMEOUT {
        return ErrHostInterface;
      }
      return Success;
    }

    /** e1000_mng_write_cmd_header_generic: the checksum field still holds the payload sum. */
    method WriteCmdHeader(payloadSum: Byte, length: nat)
      requires ram.Length == RAM_SIZE && length < 0x10000
      modifies ram
      ensures ram[..] == Header(Negated(Sum(Header(payloadSum, length))), length) + old(ram[8..])
    {
      hide Negated;
      var checksum := CalculateChecksum(Header(payloadSum, length));
      var hdr := Header(checksum, length);
      WriteDword(ram, 0, hdr[..4]);
      WriteDword(ram, 1, hdr[4..]);
      assert hdr == hdr[..4] + hdr[4..];
    }

    /** e1000_mng_write_dhcp_info_generic */
    method WriteDhcpInfo(hicr: nat -> Hicr, buffer: seq<Byte>) returns (rc: Status)
      requires ram.Length == RAM_SIZE && |buffer| < 0x10000
      modifies this`commandPending, ram
      ensures rc == if !HostIfReady(arcSubsystemValid, hicr) then ErrHostInterface
                    else if |buffer| == 0 || |buffer| > 0x6F0 then ErrParam else Success
      ensures rc == Success ==> ram[..] == DhcpRam(old(ram[..]), buffer) && commandPending
      ensures rc != Success ==> ram[..] == old(ram[..]) && commandPending == old(commandPending)
    {
      hide Negated, U8, HostIfReady;
      rc := EnableHostIf(hicr);
      if rc != Success {
        return;
      }
      ghost var ram0 := ram[..];
      SmallU8(0);
      var sum: Byte;
      rc, sum := HostIfWrite(ram, buffer, |buffer|, 8, 0);
      if rc != Success {
        return;
      }
      assert buffer[..|buffer|] == buffer;
      WriteCmdHeader(sum, |buffer|);
      commandPending := true;
    }

    /** e1000_enable_tx_pkt_filtering_generic: filtering is on unless management is off, the host
        interface cannot be read, or a cookie with a right checksum, the signature "IAMT" and a status
        byte with bit 0 clear says that packets are not parsed. */
    method EnableTxPktFiltering(managed: bool, hicr: nat -> Hicr) returns (filtering: bool)
      requires ram.Length == RAM_SIZE
      modifies this`txPktFiltering
      ensures filtering == txPktFiltering
      ensures filtering ==
              (&& managed && HostIfReady(arcSubsystemValid, hicr)
               && !(&& Sum(ram[0x6F0..0x700]) % 256 == 0
                    && ram[0x6F0] == 0x49 && ram[0x6F1] == 0x41 && ram[0x6F2] == 0x4D && ram[0x6F3] == 0x54
                    && ram[0x6F4] % 2 == 0))
    {
      hide HostIfReady, Negated;
      txPktFiltering := true;
      if !managed {
        txPktFiltering := false;
        return false;
      }
      var rc := EnableHostIf(hicr);
      if rc != Success {
        txPktFiltering := false;
        return false;
      }
      var cookie: seq<Byte> := ram[COOKIE_OFFSET..COOKIE_OFFSET + COOKIE_LENGTH];
      assert cookie == Cookie(ram[..]);
      var hdrCsum := cookie[15];
      var csum := CalculateChecksum(cookie[15 := 0]);
      ChecksumMatches(cookie, csum);
      if hdrCsum != csum || cookie[..4] != IAMT_SIGNATURE {
        txPktFiltering := true;
        return true;
      }
      if cookie[4] % 2 == 0 {
        txPktFiltering := false;
        return false;
      }
      return true;
    }
  }

  lemma ChecksumMatches(c: seq<Byte>, csum: Byte)
    requires |c| == COOKIE_LENGTH && (Sum(c[15 := 0]) + csum as int) % 256 == 0
    ensures c[15] == csum <==> Sum(c) % 256 == 0
  {
    var z: seq<Byte> := c[15 := 0];
    assert c[..15] == z[..15];
    assert Sum(z) == Sum(z[..15]) && Sum(c) == Sum(z) + c[15] as int;
  }
}
