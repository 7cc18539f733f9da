/** Byte access to the e1000's word-addressed NVM (e1000_ethtool.c, e1000_nvm.c). A word's low byte
    comes first, on every host. */
module Eeprom {
  import opened Bytes

  type Word = x: int | 0 <= x < 0x10000

  const CHECKSUM_REG := 0x3F
  const NVM_SUM := 0xBABA

  datatype Status = Success | EInval | EOpNotSupp | EFault | ErrNvm

  // ---------------------------------------------------------------- bytes of words

  function ByteOf(w: Word, high: bool): Byte {
    if high then w / 256 else w % 256
  }

  function WithByte(w: Word, high: bool, b: Byte): Word {
    if high then (b as int) * 256 + w % 256 else w / 256 * 256 + b as int
  }

  lemma WithByteIs(w: Word, high: bool, b: Byte)
    ensures ByteOf(WithByte(w, high, b), high) == b
    ensures ByteOf(WithByte(w, high, b), !high) == ByteOf(w, !high)
  {
  }

  /** Byte p of a word store. */
  function ByteAt(w: seq<Word>, p: nat): Byte
    requires p / 2 < |w|
  {
    ByteOf(w[p / 2], p % 2 == 1)
  }

  /** Low byte first. */
  lemma LowByteFirst(w: seq<Word>, i: nat)
    requires i < |w|
    ensures ByteAt(w, 2 * i) as int + 256 * ByteAt(w, 2 * i + 1) as int == w[i] as int
  {
  }

  /** A run of bytes. */
  function BytesOf(w: seq<Word>, start: nat, length: nat): (b: seq<Byte>)
    requires start + length <= 2 * |w|
    ensures |b| == length
  {
    if length == 0 then [] else BytesOf(w, start, length - 1) + [ByteAt(w, start + length - 1)]
  }

  lemma {:induction false} BytesOfAt(w: seq<Word>, start: nat, length: nat, i: nat)
    requires start + length <= 2 * |w| && i < length
    ensures BytesOf(w, start, length)[i] == ByteAt(w, start + i)
  {
    if i < length - 1 {
      BytesOfAt(w, start, length - 1, i);
    }
  }

  // ---------------------------------------------------------------- checksum

  function U16(x: nat): Word {
    x % 0x10000
  }

  lemma U16Add(a: nat, b: nat)
    ensures U16(U16(a) as int + b) == U16(a + b)
  {
  }

  lemma U16Complement(a: nat)
    ensures (NVM_SUM - U16(a) as int) % 0x10000 == (NVM_SUM - a) % 0x10000
  {
    var q := a / 0x10000;
    assert a == 0x10000 * q + U16(a) as int;
    assert NVM_SUM - U16(a) as int == NVM_SUM - a + 0x10000 * q;
  }

  lemma WordSumNext(w: seq<Word>, i: nat)
    requires i < |w|
    ensures WordSum(w[..i + 1]) == WordSum(w[..i]) + w[i] as int
  {
    assert w[..i + 1][..i] == w[..i];
  }

  function WordSum(w: seq<Word>): nat {
    if w == [] then 0 else WordSum(w[..|w| - 1]) + w[|w| - 1] as int
  }

  lemma NoWords(w: seq<Word>)
    requires w == []
    ensures U16(WordSum(w)) == 0
  {
  }

  /** The sum of the first 64 words is the magic number. */
  predicate SumIsValid(w: seq<Word>) {
    |w| > CHECKSUM_REG && U16(WordSum(w[..CHECKSUM_REG + 1])) == NVM_SUM
  }

  /** All accesses of a checksum update succeed: a read of each word below the checksum word, then the
      write of that. */
  predicate UpdateOk(ok: nat -> bool) {
    forall i :: 0 <= i <= CHECKSUM_REG ==> ok(i)
  }

  /** What a complete checksum update leaves; a store too small to have a checksum word is left alone. */
  function Checksummed(w: seq<Word>): (r: seq<Word>)
    ensures |r| == |w|
  {
    if |w| <= CHECKSUM_REG then w
    else w[CHECKSUM_REG := (NVM_SUM - WordSum(w[..CHECKSUM_REG])) % 0x10000]
  }

  lemma ChecksummedIsValid(w: seq<Word>)
    requires |w| > CHECKSUM_REG
    ensures SumIsValid(Checksummed(w)) && WordSum(Checksummed(w)[..64]) % 0x10000 == 0xBABA
    ensures forall i :: 0 <= i < |w| && i != 63 ==> Checksummed(w)[i] == w[i]
  {
    var r := Checksummed(w);
    assert r[..CHECKSUM_REG + 1][..CHECKSUM_REG] == w[..CHECKSUM_REG];
  }

  // ---------------------------------------------------------------- what a set does

  /** Reads that e1000_set_eeprom needs before it may write back partly changed words. The second is
      not attempted when the first has failed. */
  predicate HeadKept(offset: nat, okFirst: bool) {
    offset % 2 == 1 ==> okFirst
  }

  predicate TailKept(offset: nat, length: nat, okFirst: bool, okLast: bool) {
    (offset + length) % 2 == 1 ==> HeadKept(offset, okFirst) && okLast
  }

  /** Byte p after the write: the new byte inside the range, the old one outside, except that a
      neighbour in a partly changed word is whatever was in the buffer if its read failed. */
  function ByteAfter(w: seq<Word>, garbage: seq<Word>, okFirst: bool, okLast: bool,
                     offset: nat, bytes: seq<Byte>, p: nat): Byte
    requires bytes != [] && offset + |bytes| <= 2 * |w| && |garbage| == |w| && p < 2 * |w|
  {
    var end := offset + |bytes|;
    if offset <= p < end then bytes[p - offset]
    else if offset % 2 == 1 && p == offset - 1 && !HeadKept(offset, okFirst) then ByteOf(garbage[0], false)
    else if end % 2 == 1 && p == end && !TailKept(offset, |bytes|, okFirst, okLast) then
      ByteOf(garbage[p / 2 - offset / 2], true)
    else ByteAt(w, p)
  }

  /** The write alone, before the checksum update, changes no byte outside the range, whatever the buffer
      held, exactly when the reads needed for it succeed. The source goes on and writes even if they
      fail. */
  lemma WriteKeepsNeighboursExactly(w: seq<Word>, okFirst: bool, okLast: bool, offset: nat, bytes: seq<Byte>)
    requires bytes != [] && offset + |bytes| <= 2 * |w|
    ensures (forall garbage: seq<Word>, p ::
               |garbage| == |w| && 0 <= p < 2 * |w| && !(offset <= p < offset + |bytes|) ==>
               ByteAfter(w, garbage, okFirst, okLast, offset, bytes, p) == ByteAt(w, p))
            <==> (offset % 2 == 1 ==> okFirst) && ((offset + |bytes|) % 2 == 1 ==> okLast)
  {
    var end := offset + |bytes|;
    if !HeadKept(offset, okFirst) {
      var b: Word := if ByteAt(w, offset - 1) == 0 then 1 else 0;
      var garbage: seq<Word> := seq(|w|, _ => b);
      assert ByteAfter(w, garbage, okFirst, okLast, offset, bytes, offset - 1) == b;
    } else if !TailKept(offset, |bytes|, okFirst, okLast) {
      var b: Word := if ByteAt(w, end) == 0 then 256 else 0;
      var garbage: seq<Word> := seq(|w|, _ => b);
      assert ByteAfter(w, garbage, okFirst, okLast, offset, bytes, end) == b / 256;
    }
  }

  /** The whole store after the write. */
  function SetWords(w: seq<Word>, garbage: seq<Word>, okFirst: bool, okLast: bool,
                    offset: nat, bytes: seq<Byte>): (r: seq<Word>)
    requires bytes != [] && offset + |bytes| <= 2 * |w| && |garbage| == |w|
    ensures |r| == |w|
  {
    seq(|w|, i requires 0 <= i < |w| =>
      (ByteAfter(w, garbage, okFirst, okLast, offset, bytes, 2 * i + 1) as int) * 256 +
      ByteAfter(w, garbage, okFirst, okLast, offset, bytes, 2 * i) as int)
  }

  /** The store after a set whose write succeeded. */
  function Stored(w: seq<Word>, garbage: seq<Word>, okFirst: bool, okLast: bool, okUpdate: nat -> bool,
                  offset: nat, bytes: seq<Byte>): (r: seq<Word>)
    requires bytes != [] && offset + |bytes| <= 2 * |w| && |garbage| == |w|
    ensures |r| == |w|
  {
    var r := SetWords(w, garbage, okFirst, okLast, offset, bytes);
    if offset / 2 <= CHECKSUM_REG && UpdateOk(okUpdate) then Checksummed(r) else r
  }

  lemma SetWordsAt(w: seq<Word>, garbage: seq<Word>, okFirst: bool, okLast: bool,
                   offset: nat, bytes: seq<Byte>, p: nat)
    requires bytes != [] && offset + |bytes| <= 2 * |w| && |garbage| == |w| && p < 2 * |w|
    ensures ByteAt(SetWords(w, garbage, okFirst, okLast, offset, bytes), p) ==
            ByteAfter(w, garbage, okFirst, okLast, offset, bytes, p)
  {
    hide ByteAfter;
    assert p == 2 * (p / 2) + p % 2;
  }

  lemma SameBytes(a: seq<Word>, b: seq<Word>)
    requires |a| == |b| && forall p :: 0 <= p < 2 * |a| ==> ByteAt(a, p) == ByteAt(b, p)
    ensures a == b
  {
    forall i | 0 <= i < |a|
      ensures a[i] == b[i]
    {
      assert ByteAt(a, 2 * i) == ByteAt(b, 2 * i) && ByteAt(a, 2 * i + 1) == ByteAt(b, 2 * i + 1);
    }
  }

  predicate EdgesKept(okFirst: bool, okLast: bool, offset: nat, length: nat) {
    var end := offset + length;
    && (offset % 2 == 1 && offset / 2 != 63 ==> okFirst)
    && (end % 2 == 1 && end / 2 != 63 ==> okLast && (offset % 2 == 1 ==> okFirst))
  }

  lemma StoredAt(w: seq<Word>, garbage: seq<Word>, okFirst: bool, okLast: bool, okUpdate: nat -> bool,
                 offset: nat, bytes: seq<Byte>, p: nat)
    requires bytes != [] && offset + |bytes| <= 2 * |w| && |garbage| == |w|
    requires p < 2 * |w| && p / 2 != CHECKSUM_REG
    ensures ByteAt(Stored(w, garbage, okFirst, okLast, okUpdate, offset, bytes), p) ==
            ByteAfter(w, garbage, okFirst, okLast, offset, bytes, p)
  {
    hide SetWords, ByteAfter, ByteOf, UpdateOk, WordSum;
    SetWordsAt(w, garbage, okFirst, okLast, offset, bytes, p);
  }

  /** A buffer that spoils a neighbour whose read failed. */
  lemma SpoiledNeighbour(w: seq<Word>, okFirst: bool, okLast: bool, offset: nat, bytes: seq<Byte>)
    returns (garbage: seq<Word>, p: nat)
    requires bytes != [] && offset + |bytes| <= 2 * |w| && !EdgesKept(okFirst, okLast, offset, |bytes|)
    ensures |garbage| == |w| && p < 2 * |w| && !(offset <= p < offset + |bytes|) && p / 2 != CHECKSUM_REG
    ensures ByteAfter(w, garbage, okFirst, okLast, offset, bytes, p) != ByteAt(w, p)
  {
    var end := offset + |bytes|;
    if offset / 2 != CHECKSUM_REG && !HeadKept(offset, okFirst) {
      p := offset - 1;
      var b: Word := if ByteAt(w, p) == 0 then 1 else 0;
      garbage := seq(|w|, _ => b);
      assert ByteAfter(w, garbage, okFirst, okLast, offset, bytes, p) == b;
    } else {
      p := end;
      var b: Word := if ByteAt(w, p) == 0 then 256 else 0;
      garbage := seq(|w|, _ => b);
      assert ByteAfter(w, garbage, okFirst, okLast, offset, bytes, p) == b / 256;
    }
  }

  lemma KeptNeighbour(w: seq<Word>, garbage: seq<Word>, okFirst: bool, okLast: bool,
                      offset: nat, bytes: seq<Byte>, p: nat)
    requires bytes != [] && offset + |bytes| <= 2 * |w| && |garbage| == |w| && p < 2 * |w|
    requires EdgesKept(okFirst, okLast, offset, |bytes|) && p / 2 != CHECKSUM_REG
    requires !(offset <= p < offset + |bytes|)
    ensures ByteAfter(w, garbage, okFirst, okLast, offset, bytes, p) == ByteAt(w, p)
  {
  }

  /** The whole call, checksum update included: apart from the checksum word no byte outside the range
      changes, whatever the buffer held, exactly when the reads of partly changed words other than
      the checksum word succeed. */
  lemma NeighboursKeptExactly(w: seq<Word>, okFirst: bool, okLast: bool, okUpdate: nat -> bool,
                              offset: nat, bytes: seq<Byte>)
    requires bytes != [] && offset + |bytes| <= 2 * |w|
    ensures (forall garbage: seq<Word>, p ::
               |garbage| == |w| && 0 <= p < 2 * |w| && !(offset <= p < offset + |bytes|) && p / 2 != CHECKSUM_REG ==>
               ByteAt(Stored(w, garbage, okFirst, okLast, okUpdate, offset, bytes), p) == ByteAt(w, p))
            <==> EdgesKept(okFirst, okLast, offset, |bytes|)
  {
    hide EdgesKept, ByteAfter, Stored, ByteAt;
    if EdgesKept(okFirst, okLast, offset, |bytes|) {
      forall garbage: seq<Word>, p |
        |garbage| == |w| && 0 <= p < 2 * |w| && !(offset <= p < offset + |bytes|) && p / 2 != CHECKSUM_REG
        ensures ByteAt(Stored(w, garbage, okFirst, okLast, okUpdate, offset, bytes), p) == ByteAt(w, p)
      {
        StoredAt(w, garbage, okFirst, okLast, okUpdate, offset, bytes, p);
        KeptNeighbour(w, garbage, okFirst, okLast, offset, bytes, p);
      }
    } else {
      var garbage, p := SpoiledNeighbour(w, okFirst, okLast, offset, bytes);
      StoredAt(w, garbage, okFirst, okLast, okUpdate, offset, bytes, p);
    }
  }

  /** memcpy into the byte image of a word buffer. */
  method CopyBytes(buf: array<Word>, start: nat, bytes: seq<Byte>)
    requires start + |bytes| <= 2 * buf.Length
    modifies buf
    ensures forall q :: 0 <= q < 2 * buf.Length ==>
              ByteAt(buf[..], q) == if start <= q < start + |bytes| then bytes[q - start] else old(ByteAt(buf[..], q))
  {
    var j := 0;
    while j < |bytes|
      invariant 0 <= j <= |bytes|
      invariant forall q :: 0 <= q < 2 * buf.Length ==>
                  ByteAt(buf[..], q) == if start <= q < start + j then bytes[q - start] else old(ByteAt(buf[..], q))
    {
      var p := start + j;
      WithByteIs(buf[p / 2], p % 2 == 1, bytes[j]);
      ghost var before := buf[..];
      buf[p / 2] := WithByte(buf[p / 2], p % 2 == 1, bytes[j]);
      forall q | 0 <= q < 2 * buf.Length
        ensures ByteAt(buf[..], q) == if q == p then bytes[j] else ByteAt(before, q)
      {
        hide WithByte, ByteOf;
        if q / 2 == p / 2 && q != p {
          assert (q % 2 == 1) == !(p % 2 == 1);
        }
      }
      j := j + 1;
    }
  }

  /** Number of words a range touches. */
  function Span(offset: nat, length: nat): (n: nat)
    requires length > 0
    ensures n > 0
    ensures forall size: nat :: offset + length <= 2 * size ==> offset / 2 + n <= size
    ensures offset + length <= offset / 2 * 2 + 2 * n <= offset + length + 1
  {
    (offset + length - 1) / 2 - offset / 2 + 1
  }

  lemma InWord(first: nat, q: nat)
    ensures (2 * first + q) / 2 == first + q / 2 && (2 * first + q) % 2 == q % 2
  {
  }

  /** The buffer of e1000_set_eeprom when it is written back. */
  ghost predicate BufferIs(buf: seq<Word>, w: seq<Word>, garbage: seq<Word>, okFirst: bool, okLast: bool,
                           offset: nat, bytes: seq<Byte>)
    requires bytes != [] && offset + |bytes| <= 2 * |w| && |garbage| == |w| == |buf|
  {
    forall q :: 0 <= q < 2 * Span(offset, |bytes|) ==>
      ByteAt(buf, q) == ByteAfter(w, garbage, okFirst, okLast, offset, bytes, offset / 2 * 2 + q)
  }

  lemma OutsideSpan(w: seq<Word>, garbage: seq<Word>, okFirst: bool, okLast: bool,
                    offset: nat, bytes: seq<Byte>, p: nat)
    requires bytes != [] && offset + |bytes| <= 2 * |w| && |garbage| == |w| && p < 2 * |w|
    requires p / 2 < offset / 2 || p / 2 >= offset / 2 + Span(offset, |bytes|)
    ensures ByteAfter(w, garbage, okFirst, okLast, offset, bytes, p) == ByteAt(w, p)
  {
  }

  lemma WrittenBack(buf: seq<Word>, w: seq<Word>, w': seq<Word>, garbage: seq<Word>, okFirst: bool, okLast: bool,
                    offset: nat, bytes: seq<Byte>)
    requires bytes != [] && offset + |bytes| <= 2 * |w| && |garbage| == |w| == |buf| == |w'|
    requires BufferIs(buf, w, garbage, okFirst, okLast, offset, bytes)
    requires var first, n := offset / 2, Span(offset, |bytes|);
             w' == w[..first] + buf[..n] + w[first + n..]
    ensures w' == SetWords(w, garbage, okFirst, okLast, offset, bytes)
  {
    var r := SetWords(w, garbage, okFirst, okLast, offset, bytes);
    var first, n := offset / 2, Span(offset, |bytes|);
    hide SetWords, ByteOf;
    forall p | 0 <= p < 2 * |w|
      ensures ByteAt(w', p) == ByteAt(r, p)
    {
      SetWordsAt(w, garbage, okFirst, okLast, offset, bytes, p);
      if first <= p / 2 < first + n {
        var q := p - 2 * first;
        InWord(first, q);
        assert w'[p / 2] == buf[q / 2];
        assert ByteAt(buf, q) == ByteAt(w', p);
      } else {
        assert w'[p / 2] == w[p / 2];
        OutsideSpan(w, garbage, okFirst, okLast, offset, bytes, p);
      }
    }
    SameBytes(w', r);
  }

  lemma SpliceNext(w: seq<Word>, b: seq<Word>, at: nat, i: nat)
    requires at + i < |w| && i < |b|
    ensures (w[..at] + b[..i] + w[at + i..])[at + i := b[i]] == w[..at] + b[..i + 1] + w[at + i + 1..]
  {
    var l, r := (w[..at] + b[..i] + w[at + i..])[at + i := b[i]], w[..at] + b[..i + 1] + w[at + i + 1..];
    assert |l| == |r|;
    assert forall k :: 0 <= k < |l| ==> l[k] == r[k];
  }

  // ---------------------------------------------------------------- the adapter

  class Adapter {
    const words: array<Word>
    const spi: bool
    const magic: nat

    constructor (size: nat, spi: bool, magic: nat)
      ensures words.Length == size && this.spi == spi && this.magic == magic && fresh(words)
    {
      words := new Word[size](_ => 0xFFFF);
      this.spi, this.magic := spi, magic;
    }

    /** The contract of e1000_read_nvm, for either kind of NVM: bounds are checked, the bus may fail. */
    method ReadNvm(offset: nat, n: nat, ok: bool, buf: array<Word>, at: nat) returns (rc: Status)
      requires at + n <= buf.Length && buf != words
      modifies buf
      ensures rc == if ok && n > 0 && offset + n <= words.Length then Success else ErrNvm
      ensures rc == Success ==> buf[..] == old(buf[..at]) + words[offset..offset + n] + old(buf[at + n..])
      ensures rc != Success ==> buf[..] == old(buf[..])
    {
      if offset >= words.Length || n > words.Length - offset || n == 0 || !ok {
        return ErrNvm;
      }
      var i := 0;
      while i < n
        invariant 0 <= i <= n
        invariant buf[..] == old(buf[..])[..at] + words[offset..offset + n][..i] + old(buf[..])[at + i..]
      {
        SpliceNext(old(buf[..]), words[offset..offset + n], at, i);
        buf[at + i] := words[offset + i];
        i := i + 1;
      }
      return Success;
    }

    /** The contract of e1000_write_nvm; a failing write is one that could not start. */
    method WriteNvm(offset: nat, n: nat, ok: bool, buf: array<Word>) returns (rc: Status)
      requires n <= buf.Length && buf != words
      modifies words
      ensures rc == if ok && n > 0 && offset + n <= words.Length then Success else ErrNvm
      ensures rc == Success ==> words[..] == old(words[..offset]) + buf[..n] + old(words[offset + n..])
      ensures rc != Success ==> words[..] == old(words[..])
    {
      if offset >= words.Length || n > words.Length - offset || n == 0 || !ok {
        return ErrNvm;
      }
      var i := 0;
      while i < n
        invariant 0 <= i <= n
        invariant words[..] == old(words[..])[..offset] + buf[..][..i] + old(words[..])[offset + i..]
      {
        SpliceNext(old(words[..]), buf[..], offset, i);
        words[offset + i] := buf[i];
        i := i + 1;
      }
      return Success;
    }

    /** e1000_update_nvm_checksum_generic; ok(i) says whether the i-th access succeeds. */
    method UpdateChecksum(ok: nat -> bool) returns (rc: Status)
      modifies words
      ensures rc == if words.Length > 63 && forall i :: 0 <= i <= 63 ==> ok(i) then Success else ErrNvm
      ensures words[..] == if rc == Success then Checksummed(old(words[..])) else old(words[..])
    {
      hide U16, WordSum;
      var checksum: Word := 0;
      var i := 0;
      ghost var w := words[..];
      NoWords(w[..0]);
      var temp := new Word[1];
      while i < CHECKSUM_REG
        invariant 0 <= i <= CHECKSUM_REG && i <= words.Length
        invariant forall k :: 0 <= k < i ==> ok(k)
        invariant checksum == U16(WordSum(w[..i])) && words[..] == w
      {
        rc := ReadNvm(i, 1, ok(i), temp, 0);
        if rc != Success {
          return;
        }
        WordSumNext(w, i);
        U16Add(WordSum(w[..i]), words[i]);
        checksum := U16(checksum as int + temp[0] as int);
        i := i + 1;
      }
      U16Complement(WordSum(w[..CHECKSUM_REG]));
      temp[0] := (NVM_SUM - checksum as int) % 0x10000;
      rc := WriteNvm(CHECKSUM_REG, 1, ok(CHECKSUM_REG), temp);
    }

    /** e1000_eeprom_test; ok(i) says whether the i-th read succeeds. */
    method EepromTest(ok: nat -> bool) returns (data: nat)
      ensures data == 0 <==> SumIsValid(words[..]) && forall i :: 0 <= i <= CHECKSUM_REG ==> ok(i)
      ensures data == 1 <==> words.Length <= CHECKSUM_REG || exists i :: 0 <= i <= CHECKSUM_REG && !ok(i)
    {
      hide U16, WordSum;
      var checksum: Word := 0;
      data := 0;
      ghost var w := words[..];
      NoWords(w[..0]);
      var temp := new Word[1];
      var i := 0;
      while i < CHECKSUM_REG + 1
        invariant 0 <= i <= CHECKSUM_REG + 1 && i <= words.Length
        invariant forall k :: 0 <= k < i ==> ok(k)
        invariant checksum == U16(WordSum(w[..i])) && words[..] == w
      {
        var rc := ReadNvm(i, 1, ok(i), temp, 0);
        if rc != Success {
          return 1;
        }
        WordSumNext(w, i);
        U16Add(WordSum(w[..i]), words[i]);
        checksum := U16(checksum as int + temp[0] as int);
        i := i + 1;
      }
      if checksum != NVM_SUM {
        data := 2;
      }
    }

    /** The reading part of e1000_get_eeprom: all at once from SPI, word by word from Microwire. */
    method ReadWords(first: nat, n: nat, ok: nat -> bool, buf: array<Word>) returns (rc: Status)
      requires 0 < n == buf.Length && first + n <= words.Length && buf != words
      modifies buf
      ensures rc == if (if spi then ok(0) else forall i :: 0 <= i < n ==> ok(i)) then Success else ErrNvm
      ensures rc == Success ==> buf[..] == words[first..first + n]
    {
      if spi {
        rc := ReadNvm(first, n, ok(0), buf, 0);
      } else {
        rc := Success;
        var i := 0;
        while i < n
          invariant 0 <= i <= n && rc == Success
          invariant buf[..i] == words[first..first + i]
          invariant forall k :: 0 <= k < i ==> ok(k)
        {
          rc := ReadNvm(first + i, 1, ok(i), buf, i);
          if rc != Success {
            return;
          }
          i := i + 1;
        }
        assert buf[..] == buf[..n];
      }
    }

    /** e1000_get_eeprom; ok(i) says whether the i-th NVM access succeeds. */
    method GetEeprom(offset: nat, length: nat, ok: nat -> bool) returns (rc: Status, bytes: seq<Byte>)
      requires offset + length <= 2 * words.Length
      ensures rc == if length == 0 then EInval
                    else if (if spi then ok(0) else forall i :: 0 <= i < Span(offset, length) ==> ok(i)) then Success
                    else ErrNvm
      ensures rc == Success ==> bytes == BytesOf(words[..], offset, length)
    {
      if length == 0 {
        return EInval, [];
      }
      var first, last := offset / 2, (offset + length - 1) / 2;
      var n := last - first + 1;
      var buf := new Word[n];
      rc := ReadWords(first, n, ok, buf);
      bytes := BytesOf(buf[..], offset % 2, length);
      if rc == Success {
        SameRun(words[..], buf[..], first, offset, length);
      }
    }

    /** e1000_set_eeprom for a range within the NVM. The buffer starts out as garbage; the flags say
        which NVM accesses succeed, okUpdate those of the checksum update, whose result is ignored. */
    method SetEeprom(magic': nat, offset: nat, bytes: seq<Byte>, garbage: seq<Word>,
                     okFirst: bool, okLast: bool, okWrite: bool, okUpdate: nat -> bool) returns (rc: Status)
      requires offset + |bytes| <= 2 * words.Length && |garbage| == words.Length
      modifies words
      ensures rc == if bytes == [] then EOpNotSupp else if magic' != magic then EFault
                    else if okWrite then Success else ErrNvm
      ensures rc != Success ==> words[..] == old(words[..])
      ensures rc == Success ==>
                words[..] == Stored(old(words[..]), garbage, okFirst, okLast, okUpdate, offset, bytes)
    {
      if bytes == [] {
        return EOpNotSupp;
      }
      if magic' != magic {
        return EFault;
      }
      ghost var w := words[..];
      var first, last := offset / 2, (offset + |bytes| - 1) / 2;
      var buf := new Word[words.Length](i requires 0 <= i < words.Length => garbage[i]);
      assert buf[..] == garbage;
      FillBuffer(first, last, offset, bytes, garbage, okFirst, okLast, buf);
      rc := WriteNvm(first, last - first + 1, okWrite, buf);
      if rc == Success {
        WrittenBack(buf[..], w, words[..], garbage, okFirst, okLast, offset, bytes);
        if first <= CHECKSUM_REG {
          var _ := UpdateChecksum(okUpdate);
        }
      }
    }

    /** The read-modify part of e1000_set_eeprom. */
    method FillBuffer(first: nat, last: nat, offset: nat, bytes: seq<Byte>, ghost garbage: seq<Word>,
                      okFirst: bool, okLast: bool, buf: array<Word>)
      requires bytes != [] && offset + |bytes| <= 2 * words.Length && buf != words
      requires first == offset / 2 && last == (offset + |bytes| - 1) / 2
      requires buf.Length == words.Length && buf[..] == garbage
      modifies buf
      ensures BufferIs(buf[..], words[..], garbage, okFirst, okLast, offset, bytes)
    {
      ReadEdges(first, last, offset, |bytes|, garbage, okFirst, okLast, buf);
      ghost var b := buf[..];
      CopyBytes(buf, offset % 2, bytes);
      BufferFilled(buf[..], b, words[..], garbage, okFirst, okLast, offset, bytes);
      hide BufferIs, EdgesAre;
    }

    /** The words at the ends of the range, where they are only partly changed. */
    method ReadEdges(first: nat, last: nat, offset: nat, length: nat, ghost garbage: seq<Word>,
                     okFirst: bool, okLast: bool, buf: array<Word>)
      requires 0 < length && offset + length <= 2 * words.Length && buf != words
      requires first == offset / 2 && last == (offset + length - 1) / 2
      requires buf.Length == words.Length && buf[..] == garbage
      modifies buf
      ensures EdgesAre(buf[..], words[..], garbage, okFirst, okLast, offset, length)
    {
      var ret := Success;
      if offset % 2 == 1 {
        ret := ReadNvm(first, 1, okFirst, buf, 0);
        assert buf[0] == if okFirst then words[first] else garbage[0];
      }
      assert last > first ==> buf[last - first] == garbage[last - first];
      if (offset + length) % 2 == 1 && ret == Success {
        assert offset % 2 == 1 ==> last > first;
        ret := ReadNvm(last, 1, okLast, buf, last - first);
        assert buf[last - first] == if okLast then words[last] else garbage[last - first];
      }
    }

    /** What was set is what is read back, through either kind of NVM and whatever becomes of the other
        accesses, except in a checksum word that was updated. */
    method SetThenGet(offset: nat, bytes: seq<Byte>, garbage: seq<Word>,
                      okFirst: bool, okLast: bool, okUpdate: nat -> bool) returns (got: seq<Byte>)
      requires bytes != [] && offset + |bytes| <= 2 * words.Length && |garbage| == words.Length
      modifies words
      ensures |got| == |bytes|
      ensures forall i :: 0 <= i < |bytes| && (offset + i) / 2 != CHECKSUM_REG ==> got[i] == bytes[i]
      ensures offset / 2 > CHECKSUM_REG || !UpdateOk(okUpdate) ==> got == bytes
    {
      hide SetWords, ByteAt, BytesOf, Checksummed, Stored;
      var rc := SetEeprom(magic, offset, bytes, garbage, okFirst, okLast, true, okUpdate);
      rc, got := GetEeprom(offset, |bytes|, _ => true);
      forall i | 0 <= i < |bytes|
        ensures (offset + i) / 2 != CHECKSUM_REG || offset / 2 > CHECKSUM_REG || !UpdateOk(okUpdate) ==> got[i] == bytes[i]
      {
        GotIsSet(old(words[..]), garbage, okFirst, okLast, okUpdate, offset, bytes, i);
        BytesOfAt(words[..], offset, |bytes|, i);
      }
    }
  }

  lemma GotIsSet(w: seq<Word>, garbage: seq<Word>, okFirst: bool, okLast: bool, okUpdate: nat -> bool,
                 offset: nat, bytes: seq<Byte>, i: nat)
    requires bytes != [] && offset + |bytes| <= 2 * |w| && |garbage| == |w| && i < |bytes|
    ensures (offset + i) / 2 != CHECKSUM_REG || offset / 2 > CHECKSUM_REG || !UpdateOk(okUpdate) ==>
              ByteAt(Stored(w, garbage, okFirst, okLast, okUpdate, offset, bytes), offset + i) == bytes[i]
  {
    hide SetWords, WordSum, ByteOf, UpdateOk;
    SetWordsAt(w, garbage, okFirst, okLast, offset, bytes, offset + i);
  }

  lemma SameRun(w: seq<Word>, buf: seq<Word>, first: nat, offset: nat, length: nat)
    requires length > 0 && offset + length <= 2 * |w| && first == offset / 2
    requires first + |buf| <= |w| && buf == w[first..first + |buf|]
    requires |buf| == (offset + length - 1) / 2 - first + 1
    ensures offset % 2 + length <= 2 * |buf|
    ensures BytesOf(buf, offset % 2, length) == BytesOf(w, offset, length)
  {
    SplitIndex(offset, length - 1);
    SameRunUpTo(w, buf, first, offset, length);
  }

  lemma {:induction false} SameRunUpTo(w: seq<Word>, buf: seq<Word>, first: nat, offset: nat, length: nat)
    requires offset + length <= 2 * |w| && first == offset / 2
    requires first + |buf| <= |w| && buf == w[first..first + |buf|] && offset % 2 + length <= 2 * |buf|
    ensures BytesOf(buf, offset % 2, length) == BytesOf(w, offset, length)
  {
    if length > 0 {
      SameRunUpTo(w, buf, first, offset, length - 1);
      SameByteInRun(w, buf, first, offset, length - 1);
      hide ByteAt;
    }
  }

  lemma SameByteInRun(w: seq<Word>, buf: seq<Word>, first: nat, offset: nat, i: nat)
    requires offset + i < 2 * |w| && first == offset / 2
    requires first + |buf| <= |w| && buf == w[first..first + |buf|] && offset % 2 + i < 2 * |buf|
    ensures ByteAt(buf, offset % 2 + i) == ByteAt(w, offset + i)
  {
    hide ByteOf;
    SplitIndex(offset, i);
    assert buf[(offset % 2 + i) / 2] == w[first + (offset % 2 + i) / 2];
  }

  /** A byte position relative to the start of its first word. */
  lemma SplitIndex(offset: nat, i: nat)
    ensures (offset + i) / 2 == offset / 2 + (offset % 2 + i) / 2
    ensures (offset + i) % 2 == (offset % 2 + i) % 2
  {
    var h, r := offset / 2, offset % 2;
    assert offset + i == 2 * h + (r + i);
  }

  predicate EdgesAre(b: seq<Word>, w: seq<Word>, garbage: seq<Word>, okFirst: bool, okLast: bool,
                     offset: nat, length: nat)
    requires 0 < length && offset + length <= 2 * |w| && |garbage| == |w| == |b|
  {
    var first, last := offset / 2, (offset + length - 1) / 2;
    && (offset % 2 == 1 ==> b[0] == if okFirst then w[first] else garbage[0])
    && ((offset + length) % 2 == 1 ==>
          b[last - first] == if TailKept(offset, length, okFirst, okLast) then w[last] else garbage[last - first])
  }

  lemma BufferFilled(buf: seq<Word>, b: seq<Word>, w: seq<Word>, garbage: seq<Word>, okFirst: bool, okLast: bool,
                     offset: nat, bytes: seq<Byte>)
    requires bytes != [] && offset + |bytes| <= 2 * |w| && |garbage| == |w| == |buf| == |b|
    requires EdgesAre(b, w, garbage, okFirst, okLast, offset, |bytes|)
    requires forall q :: 0 <= q < 2 * |buf| ==>
               ByteAt(buf, q) == if offset % 2 <= q < offset % 2 + |bytes| then bytes[q - offset % 2] else ByteAt(b, q)
    ensures BufferIs(buf, w, garbage, okFirst, okLast, offset, bytes)
  {
    var first, n, end := offset / 2, Span(offset, |bytes|), offset + |bytes|;
    forall q | 0 <= q < 2 * n
      ensures ByteAt(buf, q) == ByteAfter(w, garbage, okFirst, okLast, offset, bytes, offset / 2 * 2 + q)
    {
      hide ByteOf;
      var p := 2 * first + q;
      InWord(first, q);
      assert p < offset ==> q == 0 && p == offset - 1;
      assert p >= end ==> p == end && end % 2 == 1 && q / 2 == n - 1;
    }
  }

  lemma {:induction false} WordSumDiffers(a: seq<Word>, b: seq<Word>, f: nat)
    requires |a| == |b| && f < |a| && forall i :: 0 <= i < |a| && i != f ==> a[i] == b[i]
    ensures WordSum(b) == WordSum(a) + b[f] as int - a[f] as int
  {
    var n := |a| - 1;
    if f < n {
      WordSumDiffers(a[..n], b[..n], f);
    } else {
      assert a[..n] == b[..n];
    }
  }

  lemma U16Differs(x: nat, delta: int)
    requires delta == 1 || delta == 256
    ensures U16(x + delta) != U16(x)
  {
    var q, r := x / 0x10000, x % 0x10000;
    assert x + delta == 0x10000 * q + (r + delta);
  }

  /** Changing the first byte of a range changes one word of the result. */
  lemma FirstByteOnly(w: seq<Word>, garbage: seq<Word>, okFirst: bool, okLast: bool, offset: nat,
                      bytes: seq<Byte>, x: Byte)
    requires bytes != [] && offset + |bytes| <= 2 * |w| && |garbage| == |w|
    ensures var a := SetWords(w, garbage, okFirst, okLast, offset, bytes);
            var b := SetWords(w, garbage, okFirst, okLast, offset, bytes[0 := x]);
            && (forall i :: 0 <= i < |w| && i != offset / 2 ==> a[i] == b[i])
            && b[offset / 2] as int - a[offset / 2] as int ==
               (x as int - bytes[0] as int) * if offset % 2 == 1 then 256 else 1
  {
  }

  /** Two ranges that differ in the first byte alone leave different sums. */
  lemma FirstByteMatters(w: seq<Word>, garbage: seq<Word>, okFirst: bool, okLast: bool, offset: nat,
                         zeros: seq<Byte>)
    requires zeros != [] && offset + |zeros| <= 2 * |w| && |garbage| == |w|
    requires zeros[0] == 0 && offset / 2 <= CHECKSUM_REG < |w|
    ensures var a := SetWords(w, garbage, okFirst, okLast, offset, zeros);
            var b := SetWords(w, garbage, okFirst, okLast, offset, zeros[0 := 1]);
            !(SumIsValid(a) && SumIsValid(b))
  {
    var ones := zeros[0 := 1];
    var a := SetWords(w, garbage, okFirst, okLast, offset, zeros);
    var b := SetWords(w, garbage, okFirst, okLast, offset, ones);
    var f := offset / 2;
    FirstByteOnly(w, garbage, okFirst, okLast, offset, zeros, 1);
    var delta := b[f] as int - a[f] as int;
    var n := CHECKSUM_REG + 1;
    hide SetWords;
    WordSumDiffers(a[..n], b[..n], f);
    U16Differs(WordSum(a[..n]), delta);
  }

  lemma AboveChecksum(w: seq<Word>, garbage: seq<Word>, okFirst: bool, okLast: bool, offset: nat, bytes: seq<Byte>)
    requires bytes != [] && offset + |bytes| <= 2 * |w| && |garbage| == |w| && offset / 2 > CHECKSUM_REG
    ensures SumIsValid(SetWords(w, garbage, okFirst, okLast, offset, bytes)) <==> SumIsValid(w)
  {
    var r := SetWords(w, garbage, okFirst, okLast, offset, bytes);
    forall i | 0 <= i <= CHECKSUM_REG
      ensures r[i] == w[i]
    {
      assert ByteAfter(w, garbage, okFirst, okLast, offset, bytes, 2 * i) == ByteAt(w, 2 * i);
      assert ByteAfter(w, garbage, okFirst, okLast, offset, bytes, 2 * i + 1) == ByteAt(w, 2 * i + 1);
    }
    assert r[..CHECKSUM_REG + 1] == w[..CHECKSUM_REG + 1];
  }

  /** A set whose write succeeded leaves a sum that passes the self-test, whatever the data, exactly if
      it starts at or below the checksum word and every access of the update succeeds, or it starts
      above and the sum was valid before. */
  lemma SetKeepsSumExactly(w: seq<Word>, garbage: seq<Word>, okFirst: bool, okLast: bool, okUpdate: nat -> bool,
                           offset: nat, length: nat)
    requires length > 0 && offset + length <= 2 * |w| && |garbage| == |w|
    ensures (forall bytes: seq<Byte> :: |bytes| == length ==>
               SumIsValid(Stored(w, garbage, okFirst, okLast, okUpdate, offset, bytes)))
            <==> if offset / 2 <= 63 then |w| > 63 && forall i :: 0 <= i <= 63 ==> okUpdate(i) else SumIsValid(w)
  {
    assert UpdateOk(okUpdate) <==> forall i :: 0 <= i <= 63 ==> okUpdate(i);
    hide SetWords, Checksummed, UpdateOk;
    var zeros: seq<Byte> := seq(length, _ => 0);
    var r := Stored(w, garbage, okFirst, okLast, okUpdate, offset, zeros);
    if offset / 2 > CHECKSUM_REG {
      hide SumIsValid;
      AboveChecksum(w, garbage, okFirst, okLast, offset, zeros);
      forall bytes: seq<Byte> | |bytes| == length
        ensures SumIsValid(Stored(w, garbage, okFirst, okLast, okUpdate, offset, bytes)) <==> SumIsValid(w)
      {
        AboveChecksum(w, garbage, okFirst, okLast, offset, bytes);
      }
    } else if |w| > CHECKSUM_REG {
      hide SumIsValid;
      if UpdateOk(okUpdate) {
        forall bytes: seq<Byte> | |bytes| == length
          ensures SumIsValid(Stored(w, garbage, okFirst, okLast, okUpdate, offset, bytes))
        {
          ChecksummedIsValid(SetWords(w, garbage, okFirst, okLast, offset, bytes));
        }
      } else {
        FirstByteMatters(w, garbage, okFirst, okLast, offset, zeros);
        assert |zeros[0 := 1]| == length;
      }
    }
  }
}
