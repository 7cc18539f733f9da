/** What snull_tx and snull_hw_tx do to the bytes of a frame (net/snull/snull.c). */
module SnullFrames {
  import opened Bytes

  type Frame = seq<Byte>

  const ETH_ZLEN := 60
  const ETH_DATA_LEN := 1500
  const ETH_HLEN := 14
  const IP_HLEN := 20

  /** Short frames are padded with zeros up to ETH_ZLEN. */
  function Padded(f: Frame): (r: Frame)
    ensures |r| == Max(|f|, ETH_ZLEN) && f <= r
    ensures forall i :: |f| <= i < |r| ==> r[i] == 0
  {
    if |f| < ETH_ZLEN then f + Zeros(ETH_ZLEN - |f|) else f
  }

  /** Toggles bit 0 of an octet. */
  function Toggled(b: Byte): Byte {
    if b % 2 == 0 then b + 1 else b - 1
  }

  /** The IPv4 header as announced by its IHL field. */
  function HeaderEnd(f: Frame): (e: nat)
    requires |f| >= ETH_HLEN + IP_HLEN
    ensures ETH_HLEN <= e <= |f|
  {
    Min(ETH_HLEN + 4 * (f[ETH_HLEN] % 16), |f|)
  }

  function Word(hi: Byte, lo: Byte): nat {
    (hi as int) * 256 + lo as int
  }

  /** Sum of the 16-bit big-endian words of a byte string. */
  function WordSum(s: seq<Byte>): nat {
    if |s| == 0 then 0
    else if |s| == 1 then Word(s[0], 0)
    else Word(s[0], s[1]) + WordSum(s[2..])
  }

  /** End-around carry: reduces a sum to 16 bits in one's complement arithmetic. */
  function Fold(x: nat): nat
    decreases x
  {
    if x < 0x10000 then x else Fold(x / 0x10000 + x % 0x10000)
  }

  function Checksum(header: seq<Byte>): (c: nat)
    ensures c < 0x10000
  {
    FoldIsResidue(WordSum(header));
    0xFFFF - Fold(WordSum(header))
  }

  /** The frame with its header checksum field set to c. */
  function WithCheck(f: Frame, c: nat): (r: Frame)
    requires |f| >= ETH_HLEN + IP_HLEN && c < 0x10000
    ensures |r| == |f|
  {
    f[24 := c / 256][25 := c % 256]
  }

  function WithAddressesToggled(f: Frame): (r: Frame)
    requires |f| >= ETH_HLEN + IP_HLEN
    ensures |r| == |f|
  {
    f[28 := Toggled(f[28])][32 := Toggled(f[32])]
  }

  /** The checksum that the header should carry. */
  function FreshCheck(f: Frame): (c: nat)
    requires |f| >= ETH_HLEN + IP_HLEN
    ensures c < 0x10000
  {
    var z := WithCheck(f, 0);
    Checksum(z[ETH_HLEN..HeaderEnd(z)])
  }

  function Check(f: Frame): (c: nat)
    requires |f| >= ETH_HLEN + IP_HLEN
  {
    Word(f[24], f[25])
  }

  /** What the medium carries: third octets of both addresses toggled, checksum rebuilt. */
  function Rewritten(f: Frame): (r: Frame)
    requires |f| >= ETH_HLEN + IP_HLEN
    ensures |r| == |f|
  {
    var g := WithAddressesToggled(f);
    WithCheck(g, FreshCheck(g))
  }

  /** The frame the twin receives for a frame handed to snull_tx. */
  function Wire(f: Frame): (r: Frame)
    ensures |r| == Max(|f|, ETH_ZLEN)
  {
    Rewritten(Padded(f))
  }

  lemma SameResidue(x: nat, y: nat, q: nat)
    requires x == y + 0xFFFF * q
    ensures x % 0xFFFF == y % 0xFFFF
  {
    var p := y / 0xFFFF;
    assert x == 0xFFFF * (p + q) + y % 0xFFFF;
  }

  lemma {:induction false} FoldIsResidue(x: nat)
    ensures Fold(x) < 0x10000
    ensures Fold(x) % 0xFFFF == x % 0xFFFF
    ensures Fold(x) == 0 <==> x == 0
    decreases x
  {
    if x >= 0x10000 {
      var q, r := x / 0x10000, x % 0x10000;
      assert 0 < q && q + r < x;
      assert Fold(x) == Fold(q + r);
      SameResidue(x, q + r, q);
      FoldIsResidue(q + r);
    }
  }

  /** Sum of the words of a byte string, by position: replacing a whole word moves the sum by
      the difference of the words. */
  lemma {:induction false} WordSumUpdate(s: seq<Byte>, i: nat, hi: Byte, lo: Byte)
    requires i % 2 == 0 && i + 1 < |s|
    ensures WordSum(s[i := hi][i + 1 := lo]) == WordSum(s) - Word(s[i], s[i + 1]) + Word(hi, lo)
  {
    var t := s[i := hi][i + 1 := lo];
    if i == 0 {
      assert t[2..] == s[2..];
    } else {
      WordSumUpdate(s[2..], i - 2, hi, lo);
      assert t[2..] == s[2..][i - 2 := hi][i - 1 := lo];
    }
  }

  /** The bytes that a frame's IHL field announces as its IPv4 header satisfy, after rewriting, the
      receiver's test of section 3.1 of RFC 791: their words, checksum included, add up to all ones.
      This needs a header that holds its checksum field and lies within the frame. */
  lemma RewrittenHeaderVerifies(f: Frame)
    requires |f| >= ETH_HLEN + IP_HLEN
    requires f[ETH_HLEN] % 16 >= 3 && ETH_HLEN + 4 * (f[ETH_HLEN] % 16) <= |f|
    ensures var r := Rewritten(f); Fold(WordSum(r[14..14 + 4 * (r[14] % 16)])) == 0xFFFF
  {
    hide WordSum, Fold;
    var g := WithAddressesToggled(f);
    var z, r := WithCheck(g, 0), Rewritten(f);
    HeaderWithCheck(g, FreshCheck(g));
    var h := z[ETH_HLEN..HeaderEnd(z)];
    CompletedSum(h, r[ETH_HLEN..HeaderEnd(r)], Checksum(h));
    assert r[14] == f[14];
  }

  /** The header with a checksum filled in is the one with a zero field, updated. */
  lemma HeaderWithCheck(g: Frame, c: nat)
    requires |g| >= ETH_HLEN + IP_HLEN && c < 0x10000
    requires g[ETH_HLEN] % 16 >= 3 && ETH_HLEN + 4 * (g[ETH_HLEN] % 16) <= |g|
    ensures var z, r := WithCheck(g, 0), WithCheck(g, c);
            var h := z[ETH_HLEN..HeaderEnd(z)];
            && |h| >= 12 && h[10] == h[11] == 0
            && r[ETH_HLEN..HeaderEnd(r)] == h[10 := c / 256][11 := c % 256]
  {
  }

  lemma CompletedSum(h: seq<Byte>, k: seq<Byte>, c: nat)
    requires |h| >= 12 && h[10] == h[11] == 0 && c == Checksum(h) && c < 0x10000
    requires k == h[10 := c / 256][11 := c % 256]
    ensures Fold(WordSum(k)) == 0xFFFF
  {
    hide WordSum, Fold;
    WordSumUpdate(h, 10, c / 256, c % 256);
    FoldIsResidue(WordSum(h));
    FoldIsResidue(WordSum(k));
    assert WordSum(k) == WordSum(h) + c;
    SumsToAllOnes(WordSum(h), c, Fold(WordSum(h)), Fold(WordSum(k)));
  }

  lemma SumsToAllOnes(s: nat, c: nat, fs: nat, ft: nat)
    requires fs < 0x10000 && c == 0xFFFF - fs && fs % 0xFFFF == s % 0xFFFF
    requires ft < 0x10000 && ft % 0xFFFF == (s + c) % 0xFFFF && (ft == 0 <==> s + c == 0)
    requires fs == 0 <==> s == 0
    ensures ft == 0xFFFF
  {
    var q := s / 0xFFFF;
    var p := fs / 0xFFFF;
    assert s + c == 0xFFFF * (q - p + 1);
    assert (0xFFFF * (q - p + 1)) % 0xFFFF == 0;
  }

  /** A frame handed to snull_tx arrives padded with zeros and otherwise unchanged but for the third
      octets of the addresses and the checksum. */
  lemma WireBytes(f: Frame)
    ensures var r := Wire(f);
            && |r| == Max(|f|, 60)
            && (forall i :: 0 <= i < |r| && i !in {24, 25, 28, 32} ==> r[i] == if i < |f| then f[i] else 0)
            && (forall i :: i in {28, 32} ==>
                  var b := if i < |f| then f[i] else 0; r[i] != b && r[i] / 2 == b / 2)
  {
    hide Rewritten;
    RewrittenChangesOnly(Padded(f));
  }

  /** Nothing but the two octets and the checksum field differs. */
  lemma RewrittenChangesOnly(f: Frame)
    requires |f| >= ETH_HLEN + IP_HLEN
    ensures var r := Rewritten(f);
            && (forall i :: 0 <= i < |f| && i !in {24, 25, 28, 32} ==> r[i] == f[i])
            && r[28] != f[28] && r[28] / 2 == f[28] / 2
            && r[32] != f[32] && r[32] / 2 == f[32] / 2
            && Check(r) == FreshCheck(r)
  {
    hide Checksum, WordSum, Fold;
    var r := Rewritten(f);
    var g := WithAddressesToggled(f);
    assert WithCheck(r, 0) == WithCheck(g, 0);
  }

  /** Crossing the medium twice (a reflected frame) gives back the original exactly when the
      original carried a correct checksum. */
  lemma RewrittenTwice(f: Frame)
    requires |f| >= ETH_HLEN + IP_HLEN
    ensures Rewritten(Rewritten(f)) == f <==> Check(f) == FreshCheck(f)
  {
    hide Checksum, WordSum, Fold;
    var r := Rewritten(f);
    var g := WithAddressesToggled(r);
    assert WithCheck(g, 0) == WithCheck(f, 0);
    assert Rewritten(r) == WithCheck(f, FreshCheck(f));
    if Check(f) == FreshCheck(f) {
      assert WithCheck(f, FreshCheck(f)) == f;
    } else {
      assert Check(WithCheck(f, FreshCheck(f))) == FreshCheck(f);
    }
  }

  /** snull_hw_tx's in-place rewriting of the transmit buffer. */
  method RewriteInPlace(buf: array<Byte>)
    requires buf.Length >= ETH_HLEN + IP_HLEN
    modifies buf
    ensures buf[..] == Rewritten(old(buf[..]))
  {
    ghost var f := buf[..];
    buf[28] := Toggled(buf[28]);
    buf[32] := Toggled(buf[32]);
    assert buf[..] == WithAddressesToggled(f);
    buf[24], buf[25] := 0, 0;
    assert buf[..] == WithCheck(WithAddressesToggled(f), 0);
    var c := Checksum(buf[ETH_HLEN..HeaderEnd(buf[..])]);
    assert buf[ETH_HLEN..HeaderEnd(buf[..])] == buf[..][ETH_HLEN..HeaderEnd(buf[..])];
    buf[24], buf[25] := c / 256, c % 256;
    assert buf[..] == Rewritten(f);
  }
}
