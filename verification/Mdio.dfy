/** The 82543's bit-banged MDIO bus (e1000_82543.c): management frames of section 22.2.4.5 of
    IEEE 802.3 pushed out and read back one clock edge at a time through the CTRL register. The PHY
    at the other end is a state machine that samples MDIO on rising MDC. */
module Mdio {
  import opened Arith

  // ---------------------------------------------------------------- bit strings

  /** The n low bits of v, most significant first. */
  function ToBits(v: nat, n: nat): (b: seq<bool>)
    ensures |b| == n
  {
    if n == 0 then [] else ToBits(v / 2, n - 1) + [v % 2 == 1]
  }

  function Value(b: seq<bool>): nat {
    if b == [] then 0 else 2 * Value(b[..|b| - 1]) + if b[|b| - 1] then 1 else 0
  }

  lemma {:induction false} ValueOfBits(v: nat, n: nat)
    requires v < Pow2(n)
    ensures Value(ToBits(v, n)) == v
  {
    if n > 0 {
      ValueOfBits(v / 2, n - 1);
      assert ToBits(v, n)[..n - 1] == ToBits(v / 2, n - 1);
    }
  }

  /** Bitwise or. */
  function Or(a: nat, b: nat): nat {
    if a == 0 && b == 0 then 0
    else 2 * Or(a / 2, b / 2) + if a % 2 == 1 || b % 2 == 1 then 1 else 0
  }

  /** What `data & mask` tests in the shift-out loop. */
  predicate MaskedBit(data: nat, mask: nat)
    requires mask > 0
  {
    Quot(data, mask) % 2 == 1
  }

  lemma {:induction false} BitAt(v: nat, n: nat, i: nat)
    requires i < n
    ensures ToBits(v, n)[i] == MaskedBit(v, Pow2(n - 1 - i))
  {
    if i < n - 1 {
      BitAt(v / 2, n - 1, i);
      HalfFirst(v, Pow2(n - 2 - i), Pow2(n - 1 - i));
    }
  }

  lemma HalfOfPacked(h: nat, lo: nat)
    ensures (2 * h + lo) / 2 == h + lo / 2 && (2 * h + lo) % 2 == lo % 2
  {
  }

  /** Fields packed by shifting and or-ing appear one after the other. */
  lemma {:induction false} PackedBits(hi: nat, m: nat, lo: nat, n: nat)
    requires lo < Pow2(n)
    ensures ToBits(hi * Pow2(n) + lo, m + n) == ToBits(hi, m) + ToBits(lo, n)
    decreases n
  {
    if n > 0 {
      var h := hi * Pow2(n - 1);
      assert hi * Pow2(n) == 2 * h;
      HalfOfPacked(h, lo);
      PackedBits(hi, m, lo / 2, n - 1);
    }
  }

  // ---------------------------------------------------------------- the PHY

  datatype Mode =
    | Idle(ones: nat)                      // ones sampled in a row
    | Header(bits: seq<bool>)              // start, opcode, PHY and register address
    | Reading(reg: nat, edges: nat)        // the PHY drives turnaround and data
    | Writing(reg: nat, bits: seq<bool>)   // the PHY collects turnaround and data
    | Skipping(left: nat)                  // a frame for some other PHY

  datatype Phy = Phy(addr: nat, regs: seq<nat>, mode: Mode)

  predicate PhyOk(p: Phy) {
    && p.addr < 32 && |p.regs| == 32
    && forall r :: 0 <= r < 32 ==> p.regs[r] < Pow2(16)
  }

  const READ := [true, false]
  const WRITE := [false, true]
  const START := [false, true]

  function Dispatch(addr: nat, h: seq<bool>): Mode
    requires |h| == 14
  {
    var reg := Value(h[9..14]);
    if h[..2] != START || Value(h[4..9]) != addr then Skipping(18)
    else if h[2..4] == READ then Reading(reg, 0)
    else if h[2..4] == WRITE then Writing(reg, [])
    else Skipping(18)
  }

  /** One rising edge of MDC with the given level on MDIO. */
  function Sampled(p: Phy, bit: bool): Phy {
    match p.mode
    case Idle(ones) =>
      p.(mode := if bit then Idle(ones + 1) else if ones >= 32 then Header([false]) else Idle(0))
    case Header(bits) =>
      p.(mode := if |bits| + 1 == 14 then Dispatch(p.addr, bits + [bit]) else Header(bits + [bit]))
    case Reading(reg, edges) =>
      p.(mode := if edges + 1 == 18 then Idle(0) else Reading(reg, edges + 1))
    case Writing(reg, bits) =>
      var b := bits + [bit];
      if |b| != 18 then p.(mode := Writing(reg, b))
      else if b[..2] == [true, false] && reg < |p.regs|
        then p.(regs := p.regs[reg := Value(b[2..])], mode := Idle(0))
      else p.(mode := Idle(0))
    case Skipping(left) =>
      p.(mode := if left <= 1 then Idle(0) else Skipping(left - 1))
  }

  function SampledAll(p: Phy, bits: seq<bool>): Phy {
    if bits == [] then p else Sampled(SampledAll(p, bits[..|bits| - 1]), bits[|bits| - 1])
  }

  lemma {:induction false} SampledConcat(p: Phy, a: seq<bool>, b: seq<bool>)
    ensures SampledAll(p, a + b) == SampledAll(SampledAll(p, a), b)
    decreases |b|
  {
    if b == [] {
      assert a + b == a;
    } else {
      assert (a + b)[..|a + b| - 1] == a + b[..|b| - 1];
      SampledConcat(p, a, b[..|b| - 1]);
    }
  }

  /** The level on MDIO when the station does not drive it: the PHY's output, or the pull-up. After
      the first turnaround edge the PHY drives zero, after the next sixteen the register. */
  predicate Pin(p: Phy) {
    match p.mode
    case Reading(reg, edges) =>
      if edges == 1 then false
      else if 2 <= edges <= 17 && reg < |p.regs| then ToBits(p.regs[reg], 16)[edges - 2]
      else true
    case _ => true
  }

  /** The PHY after k edges with MDIO released. */
  function Clocked(p: Phy, k: nat): Phy {
    if k == 0 then p else Sampled(Clocked(p, k - 1), true)
  }

  // ---------------------------------------------------------------- frames

  function ReadHeader(addr: nat, reg: nat): seq<bool> {
    START + READ + ToBits(addr, 5) + ToBits(reg, 5)
  }

  function WriteFrame(addr: nat, reg: nat, data: nat): seq<bool> {
    START + WRITE + ToBits(addr, 5) + ToBits(reg, 5) + [true, false] + ToBits(data, 16)
  }

  function Ones(n: nat): seq<bool> { seq(n, _ => true) }

  lemma {:induction false} PreambleCounts(p: Phy, n: nat)
    requires p.mode.Idle?
    ensures SampledAll(p, Ones(n)) == p.(mode := Idle(p.mode.ones + n))
  {
    if n > 0 {
      assert Ones(n)[..n - 1] == Ones(n - 1);
      PreambleCounts(p, n - 1);
    }
  }

  lemma {:induction false} HeaderCollects(p: Phy, bits: seq<bool>)
    requires p.mode.Header? && |p.mode.bits| + |bits| < 14
    ensures SampledAll(p, bits) == p.(mode := Header(p.mode.bits + bits))
  {
    if bits == [] {
      assert p.mode.bits + [] == p.mode.bits;
    } else {
      HeaderCollects(p, bits[..|bits| - 1]);
      assert p.mode.bits + bits == p.mode.bits + bits[..|bits| - 1] + [bits[|bits| - 1]];
    }
  }

  /** After a full preamble fourteen header bits are taken in and acted on. */
  lemma HeaderDispatches(p: Phy, h: seq<bool>)
    requires p.mode.Idle? && p.mode.ones >= 32 && |h| == 14 && !h[0]
    ensures SampledAll(p, h) == p.(mode := Dispatch(p.addr, h))
  {
    assert h == [false] + h[1..13] + [h[13]];
    assert h[..13][..1] == [false] && h[..13] == [false] + h[1..13];
    SampledConcat(p, [false], h[1..13]);
    assert SampledAll(p, [false]) == Sampled(SampledAll(p, [false][..0]), false);
    HeaderCollects(p.(mode := Header([false])), h[1..13]);
    assert SampledAll(p, h) == Sampled(SampledAll(p, h[..13]), h[13]);
  }

  lemma {:induction false} WritingCollects(p: Phy, bits: seq<bool>)
    requires p.mode.Writing? && |p.mode.bits| + |bits| < 18
    ensures SampledAll(p, bits) == p.(mode := Writing(p.mode.reg, p.mode.bits + bits))
  {
    if bits == [] {
      assert p.mode.bits + [] == p.mode.bits;
    } else {
      WritingCollects(p, bits[..|bits| - 1]);
      assert p.mode.bits + bits == p.mode.bits + bits[..|bits| - 1] + [bits[|bits| - 1]];
    }
  }

  lemma {:induction false} SkippingPasses(p: Phy, bits: seq<bool>)
    requires p.mode.Skipping? && |bits| < p.mode.left
    ensures SampledAll(p, bits) == p.(mode := Skipping(p.mode.left - |bits|))
  {
    if bits != [] {
      SkippingPasses(p, bits[..|bits| - 1]);
    }
  }

  /** A PHY that has not seen a full preamble stays idle through a whole frame. */
  lemma {:induction false} StaysIdle(p: Phy, bits: seq<bool>)
    requires p.mode.Idle? && p.mode.ones + |bits| < 32
    ensures var q := SampledAll(p, bits); q.mode.Idle? && q == p.(mode := q.mode)
    ensures SampledAll(p, bits).mode.ones <= p.mode.ones + |bits|
  {
    if bits != [] {
      StaysIdle(p, bits[..|bits| - 1]);
    }
  }

  lemma FrameIgnored(p: Phy, bits: seq<bool>)
    requires p.mode.Idle? && p.mode.ones < 32 && 0 < |bits| <= 32 && !bits[0]
    ensures var q := SampledAll(p, bits); q.mode.Idle? && q == p.(mode := q.mode) && q.mode.ones < |bits|
  {
    assert bits == [false] + bits[1..];
    SampledConcat(p, [false], bits[1..]);
    assert SampledAll(p, [false]) == Sampled(SampledAll(p, [false][..0]), false);
    StaysIdle(p.(mode := Idle(0)), bits[1..]);
  }

  lemma SmallPowers()
    ensures Pow2(2) == 4 && Pow2(5) == 32 && Pow2(16) == 65536
    ensures Pow2(7) == 128 && Pow2(10) == 1024 && Pow2(12) == 4096 && Pow2(14) == 16384
  {
    assert Pow2(4) == 16 && Pow2(8) == 256;
    assert Pow2(6) == 64 && Pow2(3) == 8;
    assert Pow2(9) == 512 && Pow2(11) == 2048 && Pow2(13) == 8192 && Pow2(15) == 32768;
  }

  lemma HeaderFields(op: seq<bool>, addr: nat, reg: nat)
    requires |op| == 2 && addr < 32 && reg < 32
    ensures var h := START + op + ToBits(addr, 5) + ToBits(reg, 5);
            h[..2] == START && h[2..4] == op && Value(h[4..9]) == addr && Value(h[9..14]) == reg && !h[0]
  {
    SmallPowers();
    var h := START + op + ToBits(addr, 5) + ToBits(reg, 5);
    assert h[4..9] == ToBits(addr, 5) && h[9..14] == ToBits(reg, 5);
    ValueOfBits(addr, 5);
    ValueOfBits(reg, 5);
  }

  /** What a read header does to a PHY that has seen a preamble. */
  lemma ReadHeaderTaken(p: Phy, addr: nat, reg: nat)
    requires p.mode.Idle? && p.mode.ones >= 32 && addr < 32 && reg < 32
    ensures SampledAll(p, ReadHeader(addr, reg)) ==
            p.(mode := if addr == p.addr then Reading(reg, 0) else Skipping(18))
  {
    HeaderFields(READ, addr, reg);
    HeaderDispatches(p, ReadHeader(addr, reg));
  }

  /** A write frame, seen after a preamble, is exactly that write; other PHYs ignore it. */
  lemma WriteFrameTaken(p: Phy, addr: nat, reg: nat, data: nat)
    requires PhyOk(p) && p.mode.Idle? && p.mode.ones >= 32 && addr < 32 && reg < 32 && data < 65536
    ensures SampledAll(p, WriteFrame(addr, reg, data)) ==
            p.(mode := Idle(0), regs := if addr == p.addr then p.regs[reg := data] else p.regs)
  {
    hide Sampled, SampledAll, ToBits, Value;
    var h := START + WRITE + ToBits(addr, 5) + ToBits(reg, 5);
    var t := [true, false] + ToBits(data, 16);
    HeaderFields(WRITE, addr, reg);
    HeaderDispatches(p, h);
    assert WriteFrame(addr, reg, data) == h + t;
    SampledConcat(p, h, t);
    if addr == p.addr {
      WriteTailTaken(p, reg, t, data);
    } else {
      TailSkipped(p, t);
    }
  }

  lemma WriteTailTaken(p: Phy, reg: nat, t: seq<bool>, data: nat)
    requires reg < |p.regs| && data < 65536 && t == [true, false] + ToBits(data, 16)
    ensures SampledAll(p.(mode := Writing(reg, [])), t) == p.(regs := p.regs[reg := data], mode := Idle(0))
  {
    hide Sampled, ToBits, Value;
    var w := p.(mode := Writing(reg, []));
    WritingCollects(w, t[..17]);
    assert [] + t[..17] == t[..17];
    LastWriteBit(p, reg, t, data);
  }

  lemma TailSkipped(p: Phy, t: seq<bool>)
    requires |t| == 18
    ensures SampledAll(p.(mode := Skipping(18)), t) == p.(mode := Idle(0))
  {
    hide Sampled;
    SkippingPasses(p.(mode := Skipping(18)), t[..17]);
    LastSkip(p, t[17]);
  }

  lemma LastSkip(p: Phy, bit: bool)
    ensures Sampled(p.(mode := Skipping(1)), bit) == p.(mode := Idle(0))
  {
  }

  lemma LastWriteBit(p: Phy, reg: nat, t: seq<bool>, data: nat)
    requires reg < |p.regs| && data < 65536 && t == [true, false] + ToBits(data, 16)
    ensures Sampled(p.(mode := Writing(reg, t[..17])), t[17]) == p.(regs := p.regs[reg := data], mode := Idle(0))
  {
    SmallPowers();
    assert t[..17] + [t[17]] == t && t[2..] == ToBits(data, 16) && t[..2] == [true, false];
    ValueOfBits(data, 16);
  }

  // ---------------------------------------------------------------- reading

  /** The sixteen levels the driver sees: after the second to the seventeenth edge. */
  function Presented(p: Phy): (b: seq<bool>)
    ensures |b| == 16
  {
    seq(16, i requires 0 <= i < 16 => Pin(Clocked(p, i + 2)))
  }

  lemma {:induction false} ClockedReading(p: Phy, reg: nat, k: nat)
    requires k <= 17
    ensures Clocked(p.(mode := Reading(reg, 0)), k) == p.(mode := Reading(reg, k))
  {
    if k > 0 {
      ClockedReading(p, reg, k - 1);
    }
  }

  lemma {:induction false} ClockedSkipping(p: Phy, k: nat)
    requires k <= 17
    ensures Clocked(p.(mode := Skipping(18)), k) == p.(mode := Skipping(18 - k))
  {
    if k > 0 {
      ClockedSkipping(p, k - 1);
    }
  }

  lemma {:induction false} ClockedIdle(p: Phy, k: nat)
    requires p.mode.Idle?
    ensures Clocked(p, k) == p.(mode := Idle(p.mode.ones + k))
  {
    if k > 0 {
      ClockedIdle(p, k - 1);
    }
  }

  lemma ReadingPresents(p: Phy, reg: nat)
    requires PhyOk(p) && reg < 32
    ensures var q := p.(mode := Reading(reg, 0));
            && Value(Presented(q)) == p.regs[reg]
            && Clocked(q, 18) == p.(mode := Idle(0))
  {
    var q := p.(mode := Reading(reg, 0));
    forall i | 0 <= i < 16
      ensures Presented(q)[i] == ToBits(p.regs[reg], 16)[i]
    {
      ClockedReading(p, reg, i + 2);
    }
    assert Presented(q) == ToBits(p.regs[reg], 16);
    ValueOfBits(p.regs[reg], 16);
    ClockedReading(p, reg, 17);
  }

  lemma {:induction false} ValueOfOnes(n: nat)
    ensures Value(Ones(n)) == Pow2(n) - 1
  {
    if n > 0 {
      assert Ones(n)[..n - 1] == Ones(n - 1);
      ValueOfOnes(n - 1);
    }
  }

  lemma NobodyDrives(p: Phy)
    requires p.mode == Skipping(18) || p.mode.Idle?
    ensures Presented(p) == Ones(16)
  {
    forall i | 0 <= i < 16
      ensures Presented(p)[i]
    {
      if p.mode.Idle? {
        ClockedIdle(p, i + 2);
      } else {
        ClockedSkipping(p, i + 2);
      }
    }
  }

  /** With no PHY answering, the pull-up reads as all ones. */
  lemma NobodyPresents(p: Phy)
    requires p.mode == Skipping(18) || p.mode.Idle?
    ensures Value(Presented(p)) == 0xFFFF
    ensures Clocked(p, 18) == p.(mode := Idle(if p.mode.Idle? then p.mode.ones + 18 else 0))
  {
    hide Sampled, Value, Pow2;
    NobodyDrives(p);
    ValueOfOnes(16);
    SmallPowers();
    if p.mode.Idle? {
      ClockedIdle(p, 18);
    } else {
      ClockedSkipping(p, 17);
      LastSkip(p, true);
    }
  }

  // ---------------------------------------------------------------- the driver

  /** The CTRL register: software pins 2 and 3 with their directions, and everything else in it. */
  datatype Ctrl = Ctrl(mdio: bool, mdc: bool, mdioOut: bool, mdcOut: bool, other: nat) {
    /** The level of MDC at the PHY; a line that nobody drives is low. */
    predicate Clock() { mdcOut && mdc }
  }

  datatype Status = Success | ErrParam

  class Nic {
    var ctrl: Ctrl
    var phy: Phy
    const phyAddr: nat

    constructor (ctrl: Ctrl, phy: Phy, phyAddr: nat)
      ensures this.ctrl == ctrl && this.phy == phy && this.phyAddr == phyAddr
    {
      this.ctrl, this.phy, this.phyAddr := ctrl, phy, phyAddr;
    }

    /** A store to CTRL; the PHY samples if MDC goes high at its end. */
    method WriteCtrl(v: Ctrl)
      modifies this
      ensures ctrl == v
      ensures phy == if !old(ctrl).Clock() && v.Clock() then Sampled(old(phy), if v.mdioOut then v.mdio else true) else old(phy)
    {
      if !ctrl.Clock() && v.Clock() {
        phy := Sampled(phy, if v.mdioOut then v.mdio else true);
      }
      ctrl := v;
    }

    /** A load from CTRL shows the pin itself when MDIO is an input. */
    method ReadCtrl() returns (v: Ctrl)
      ensures v == if ctrl.mdioOut then ctrl else ctrl.(mdio := Pin(phy))
    {
      v := if ctrl.mdioOut then ctrl else ctrl.(mdio := Pin(phy));
    }

    method RaiseMdiClk(c: Ctrl)
      modifies this
      ensures ctrl == c.(mdc := true)
      ensures phy == if !old(ctrl).Clock() && c.mdcOut then Sampled(old(phy), if c.mdioOut then c.mdio else true)
                     else old(phy)
    {
      WriteCtrl(c.(mdc := true));
    }

    method LowerMdiClk(c: Ctrl)
      modifies this
      ensures ctrl == c.(mdc := false) && phy == old(phy)
    {
      WriteCtrl(c.(mdc := false));
    }

    /** e1000_shift_out_mdi_bits_82543. If MDC is still driven high, there is no edge for the first bit. */
    method ShiftOutMdiBits(data: nat, count: nat)
      requires 1 <= count <= 32
      modifies this
      ensures !ctrl.mdc && ctrl.mdcOut && ctrl.mdioOut && ctrl.other == old(ctrl.other)
      ensures phy == SampledAll(old(phy), ToBits(data, count)[if old(ctrl.Clock()) then 1 else 0..])
    {
      hide Sampled;
      ghost var bits := ToBits(data, count);
      ghost var skip := if ctrl.Clock() then 1 else 0;
      var mask := Pow2(count - 1);
      var c := ReadCtrl();
      c := c.(mdioOut := true, mdcOut := true);
      ghost var n := 0;
      assert ctrl.mdc == c.mdc;
      while mask != 0
        invariant 0 <= n <= count && mask == if n == count then 0 else Pow2(count - 1 - n)
        invariant c.mdioOut && c.mdcOut && c.mdc == old(ctrl.mdc) && c.other == old(ctrl.other)
        invariant n == 0 ==> ctrl == old(ctrl) && phy == old(phy)
        invariant n > 0 ==> !ctrl.mdc && ctrl.mdcOut && ctrl.mdioOut && ctrl.other == old(ctrl.other)
        invariant n > 0 ==> phy == SampledAll(old(phy), bits[skip..n])
        decreases count - n
      {
        BitAt(data, count, n);
        ghost var p0 := phy;
        c := c.(mdio := MaskedBit(data, mask));
        WriteCtrl(c);
        RaiseMdiClk(c);
        LowerMdiClk(c);
        assert phy == if n == 0 && skip == 1 then p0 else Sampled(p0, bits[n]);
        NextBit(old(phy), bits, skip, n, p0, phy);
        mask := mask / 2;
        n := n + 1;
      }
      assert bits[skip..count] == bits[skip..];
    }

    /** e1000_shift_in_mdi_bits_82543 */
    method ShiftInMdiBits() returns (data: nat)
      requires !ctrl.mdc && ctrl.mdcOut
      modifies this
      ensures !ctrl.mdc && ctrl.mdcOut && ctrl.other == old(ctrl.other)
      ensures phy == Clocked(old(phy), 18) && data == Value(Presented(old(phy)))
    {
      hide Sampled, Pin;
      ghost var p0 := phy;
      ghost var seen := Presented(phy);
      var c := ReadCtrl();
      c := c.(mdioOut := false, mdio := false);
      WriteCtrl(c);
      RaiseMdiClk(c);
      LowerMdiClk(c);
      data := 0;
      var i := 0;
      while i < 16
        invariant 0 <= i <= 16 && !c.mdioOut && c.mdcOut && c.other == old(ctrl.other)
        invariant ctrl == c.(mdc := false)
        invariant phy == Clocked(p0, i + 1)
        invariant data == Value(seen[..i])
      {
        data := data * 2;
        RaiseMdiClk(c);
        c := ReadCtrl();
        assert c.mdio == seen[i];
        if c.mdio {
          data := data + 1;
        }
        LowerMdiClk(c);
        assert seen[..i + 1][..i] == seen[..i];
        i := i + 1;
      }
      assert seen[..16] == seen;
      RaiseMdiClk(c);
      LowerMdiClk(c);
    }

    /** A frame sent now will be preceded by the full preamble of 32 ones. */
    predicate Ready()
      reads this
    {
      phy.mode.Idle? && (ctrl.Clock() ==> phy.mode.ones >= 1)
    }

    ghost predicate Valid()
      reads this
    {
      PhyOk(phy) && phy.mode.Idle? && phyAddr < 32
    }

    method Preamble()
      requires Valid()
      modifies this
      ensures !ctrl.mdc && ctrl.mdcOut && phy == old(phy).(mode := phy.mode) && phy.mode.Idle?
      ensures phy.mode.ones >= 32 <==> old(Ready())
    {
      hide Sampled, ToBits;
      PreambleBits();
      ShiftOutMdiBits(0xFFFF_FFFF, 32);
      assert Ones(32)[0..] == Ones(32) && Ones(32)[1..] == Ones(31);
      PreambleCounts(old(phy), 32);
      PreambleCounts(old(phy), 31);
    }

    /** e1000_write_phy_reg_82543: exactly the addressed register of the addressed PHY takes the
        value, provided that MDC was low or the PHY had already seen a one. */
    method WritePhyReg(offset: nat, data: nat) returns (rc: Status)
      requires Valid() && data < 65536
      modifies this
      ensures Valid() && phy.addr == old(phy.addr)
      ensures offset > 31 ==> rc == ErrParam && phy == old(phy) && ctrl == old(ctrl)
      ensures offset <= 31 ==> rc == Success && !ctrl.mdc
      ensures offset <= 31 ==>
                phy.regs == if old(Ready()) && phyAddr == old(phy.addr) then old(phy.regs)[offset := data]
                            else old(phy.regs)
    {
      hide Sampled, ToBits, SampledAll, Value, Or;
      if offset > 31 {
        return ErrParam;
      }
      Preamble();
      ghost var p := phy;
      var mdic := Or(Or(Or(Or(2, offset * 4), phyAddr * 128), 1 * 4096), 1 * 16384);
      mdic := mdic * 65536;
      mdic := Or(mdic, data);
      OrIsSum(offset, phyAddr, data);
      WritePacked(phyAddr, offset, data);
      ghost var frame := WriteFrame(phyAddr, offset, data);
      ShiftOutMdiBits(mdic, 32);
      assert frame[0..] == frame;
      if p.mode.ones >= 32 {
        WriteFrameTaken(p, phyAddr, offset, data);
        SmallPowers();
      } else {
        FrameIgnored(p, frame);
      }
      return Success;
    }

    /** e1000_read_phy_reg_82543: returns the addressed register, or all ones if no PHY answers. */
    method ReadPhyReg(offset: nat) returns (rc: Status, data: nat)
      requires Valid()
      modifies this
      ensures Valid() && phy.addr == old(phy.addr) && phy.regs == old(phy.regs)
      ensures offset > 31 ==> rc == ErrParam && phy == old(phy) && ctrl == old(ctrl)
      ensures offset <= 31 ==> rc == Success && !ctrl.mdc
      ensures offset <= 31 ==>
                data == if old(Ready()) && phyAddr == old(phy.addr) then old(phy.regs)[offset] else 0xFFFF
    {
      hide Sampled, ToBits, SampledAll, Value, Presented, Clocked, Or;
      if offset > 31 {
        return ErrParam, 0;
      }
      Preamble();
      ghost var p := phy;
      var mdic := Or(Or(Or(offset, phyAddr * 32), 2 * 1024), 1 * 4096);
      OrIsSum(offset, phyAddr, 0);
      ReadPacked(phyAddr, offset);
      ghost var header := ReadHeader(phyAddr, offset);
      ShiftOutMdiBits(mdic, 14);
      assert header[0..] == header;
      if p.mode.ones >= 32 {
        ReadHeaderTaken(p, phyAddr, offset);
        if phyAddr == p.addr {
          ReadingPresents(p, offset);
        } else {
          NobodyPresents(phy);
        }
      } else {
        FrameIgnored(p, header);
        NobodyPresents(phy);
      }
      data := ShiftInMdiBits();
      return Success, data;
    }

    /** Any sequence of accesses, from any state of the clock, behaves as a register file. */
    method Access(ops: seq<Op>) returns (answers: seq<Answer>)
      requires Valid() && forall o :: o in ops ==> OpOk(o)
      modifies this
      ensures Valid() && phy.addr == old(phy.addr)
      ensures File(phy.regs, Ready(), answers) ==
              RegisterFile(old(phy.regs), phyAddr == phy.addr, old(Ready()), ops)
    {
      answers := [];
      ghost var regs, present, heard := phy.regs, phyAddr == phy.addr, Ready();
      var i := 0;
      assert ops[..0] == [];
      while i < |ops|
        invariant 0 <= i <= |ops|
        invariant Valid() && phy.addr == old(phy.addr)
        invariant File(phy.regs, Ready(), answers) == RegisterFile(regs, present, heard, ops[..i])
      {
        assert ops[..i + 1][..i] == ops[..i];
        assert OpOk(ops[i]);
        ghost var before := File(phy.regs, Ready(), answers);
        match ops[i] {
          case Write(reg, data) =>
            var rc := WritePhyReg(reg, data);
            answers := answers + [if rc == Success then Done else Refused];
          case Read(reg) =>
            var rc, data := ReadPhyReg(reg);
            answers := answers + [if rc == Success then Got(data) else Refused];
        }
        assert File(phy.regs, Ready(), answers) == Answered(before, present, ops[i]);
        i := i + 1;
      }
      assert ops[..i] == ops;
    }
  }

  datatype Op = Read(reg: nat) | Write(reg: nat, data: nat)

  predicate OpOk(o: Op) {
    o.Write? ==> o.data < 65536
  }

  datatype Answer = Done | Got(data: nat) | Refused

  /** A register file: its contents, whether it hears the next access, and its answers so far. */
  datatype File = File(regs: seq<nat>, heard: bool, answers: seq<Answer>)

  /** Registers above 31 are refused. An access that is not heard, or with no PHY present, writes
      nothing and reads all ones; the one after is heard. */
  function Answered(f: File, present: bool, o: Op): (r: File)
    ensures |r.regs| == |f.regs|
  {
    var hit := f.heard && present && o.reg < |f.regs|;
    if o.reg > 31 then f.(answers := f.answers + [Refused])
    else match o
      case Write(reg, data) =>
        File(if hit then f.regs[reg := data] else f.regs, true, f.answers + [Done])
      case Read(reg) => File(f.regs, true, f.answers + [Got(if hit then f.regs[reg] else 0xFFFF)])
  }

  function RegisterFile(regs: seq<nat>, present: bool, heard: bool, ops: seq<Op>): (r: File)
    ensures |r.regs| == |regs|
  {
    if ops == [] then File(regs, heard, [])
    else Answered(RegisterFile(regs, present, heard, ops[..|ops| - 1]), present, ops[|ops| - 1])
  }

  // ---------------------------------------------------------------- packing

  lemma {:induction false} AllOnes(n: nat)
    ensures ToBits(Pow2(n) - 1, n) == Ones(n)
  {
    if n > 0 {
      AllOnes(n - 1);
      assert Ones(n) == Ones(n - 1) + [true];
    }
  }

  lemma PreambleBits()
    ensures ToBits(0xFFFF_FFFF, 32) == Ones(32)
  {
    SmallPowers();
    assert Pow2(17) == 131072 && Pow2(18) == 262144 && Pow2(19) == 524288 && Pow2(20) == 1048576;
    assert Pow2(21) == 2097152 && Pow2(22) == 4194304 && Pow2(23) == 8388608 && Pow2(24) == 16777216;
    assert Pow2(25) == 33554432 && Pow2(26) == 67108864 && Pow2(27) == 134217728 && Pow2(28) == 268435456;
    assert Pow2(29) == 0x2000_0000 && Pow2(30) == 0x4000_0000 && Pow2(31) == 0x8000_0000;
    assert Pow2(32) == 0x1_0000_0000;
    AllOnes(32);
  }

  /** Fields that share no bit: or-ing is adding. */
  lemma {:induction false} OrDisjoint(hi: nat, n: nat, lo: nat)
    requires lo < Pow2(n)
    ensures Or(lo, hi * Pow2(n)) == Or(hi * Pow2(n), lo) == hi * Pow2(n) + lo
    decreases n
  {
    if n == 0 {
      OrZero(hi);
    } else {
      var h := hi * Pow2(n - 1);
      assert hi * Pow2(n) == 2 * h;
      OrDisjoint(hi, n - 1, lo / 2);
      OrHalves(h, lo);
    }
  }

  lemma OrHalves(h: nat, lo: nat)
    ensures Or(lo, 2 * h) == 2 * Or(lo / 2, h) + lo % 2 && Or(2 * h, lo) == 2 * Or(h, lo / 2) + lo % 2
  {
    assert (2 * h) / 2 == h && (2 * h) % 2 == 0;
    if h == 0 && lo == 0 {
      assert Or(0, 0) == 0;
    }
  }

  lemma {:induction false} OrZero(a: nat)
    ensures Or(a, 0) == Or(0, a) == a
  {
    if a > 0 {
      OrZero(a / 2);
    }
  }

  /** The words that the driver makes by or-ing shifted fields are the sums of the fields. */
  lemma OrIsSum(offset: nat, addr: nat, data: nat)
    requires offset < 32 && addr < 32 && data < 65536
    ensures Or(Or(Or(offset, addr * 32), 2 * 1024), 1 * 4096) == offset + addr * 32 + 2 * 1024 + 1 * 4096
    ensures Or(Or(Or(Or(2, offset * 4), addr * 128), 1 * 4096), 1 * 16384) ==
            2 + offset * 4 + addr * 128 + 1 * 4096 + 1 * 16384
    ensures forall h: nat :: Or(h * 65536, data) == h * 65536 + data
  {
    hide Or, Pow2;
    SmallPowers();
    OrDisjoint(addr, 5, offset);
    OrDisjoint(2, 10, offset + addr * 32);
    OrDisjoint(1, 12, offset + addr * 32 + 2 * 1024);
    OrDisjoint(offset, 2, 2);
    OrDisjoint(addr, 7, 2 + offset * 4);
    OrDisjoint(1, 12, 2 + offset * 4 + addr * 128);
    OrDisjoint(1, 14, 2 + offset * 4 + addr * 128 + 4096);
    forall h: nat ensures Or(h * 65536, data) == h * 65536 + data {
      OrDisjoint(h, 16, data);
    }
  }

  lemma TwoBits()
    ensures ToBits(1, 2) == START && ToBits(2, 2) == READ && ToBits(1, 2) == WRITE
  {
    assert ToBits(0, 0) == [];
    assert ToBits(0, 1) == [false] && ToBits(1, 1) == [true];
  }

  lemma HeaderPacked(op: nat, addr: nat, reg: nat)
    requires op < 4 && addr < 32 && reg < 32
    ensures ToBits(reg + addr * 32 + op * 1024 + 4096, 14) == START + ToBits(op, 2) + ToBits(addr, 5) + ToBits(reg, 5)
  {
    hide ToBits, Pow2;
    SmallPowers();
    TwoBits();
    PackedBits(1, 2, op, 2);
    PackedBits(1 * 4 + op, 4, addr, 5);
    PackedBits((1 * 4 + op) * 32 + addr, 9, reg, 5);
  }

  lemma ReadPacked(addr: nat, reg: nat)
    requires addr < 32 && reg < 32
    ensures ToBits(reg + addr * 32 + 2 * 1024 + 1 * 4096, 14) == ReadHeader(addr, reg)
  {
    hide ToBits;
    TwoBits();
    HeaderPacked(2, addr, reg);
  }

  lemma WritePacked(addr: nat, reg: nat, data: nat)
    requires addr < 32 && reg < 32 && data < 65536
    ensures ToBits((2 + reg * 4 + addr * 128 + 1 * 4096 + 1 * 16384) * 65536 + data, 32) == WriteFrame(addr, reg, data)
  {
    hide ToBits, Pow2;
    SmallPowers();
    TwoBits();
    HeaderPacked(1, addr, reg);
    var h := reg + addr * 32 + 1024 + 4096;
    PackedBits(h, 14, 2, 2);
    PackedBits(h * 4 + 2, 16, data, 16);
    assert WriteFrame(addr, reg, data) == START + WRITE + ToBits(addr, 5) + ToBits(reg, 5) + READ + ToBits(data, 16);
  }

  lemma NextBit(p: Phy, bits: seq<bool>, skip: nat, n: nat, p0: Phy, q: Phy)
    requires skip <= 1 && n < |bits| && skip <= |bits|
    requires if n > 0 then p0 == SampledAll(p, bits[skip..n]) else p0 == p
    requires q == if n == 0 && skip == 1 then p0 else Sampled(p0, bits[n])
    ensures q == SampledAll(p, bits[skip..n + 1])
  {
    hide Sampled;
    var s := bits[skip..n + 1];
    if n >= skip {
      assert s != [] && s[|s| - 1] == bits[n];
      assert s[..|s| - 1] == bits[skip..n];
      assert SampledAll(p, s) == Sampled(SampledAll(p, s[..|s| - 1]), s[|s| - 1]);
      if n == 0 {
        assert bits[skip..n] == [];
      }
    } else {
      assert s == [];
    }
  }
}
