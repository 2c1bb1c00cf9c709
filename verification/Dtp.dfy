/**
  The checksum code of the data transfer protocol (src/ndsl/net/DTP.cc): the in-place bit
  reversals, the CRC loop, and the comparison made when a UDP datagram arrives.

  An `unsigned char` is a string of 8 bits and an `unsigned short` one of 16, written with the
  highest bit first as in C; the C operators <<, >>, &, | and ^ are spelled out on them, the
  shifts dropping what leaves the word.
*/
module Dtp {
  import opened Crc16

  const RECVDATASUCC := 10
  const RECVUDPDATAFAIL := 18

  // ---------------------------------------------------------------- machine words

  type Byte = s: Bits | |s| == 8 witness Zeros(8)
  type Word = s: Bits | |s| == 16 witness Zeros(16)

  /** A hexadecimal digit. */
  function Digit(x: nat): (s: Bits)
    ensures |s| == 4
  {
    [x / 8 % 2 == 1, x / 4 % 2 == 1, x / 2 % 2 == 1, x % 2 == 1]
  }

  /** A word written with four hexadecimal digits. */
  function Hex(a: nat, b: nat, c: nat, d: nat): Word {
    Digit(a) + Digit(b) + Digit(c) + Digit(d)
  }

  /** 1 << k in a word of n bits. */
  function One(n: nat, k: nat): (s: Bits)
    requires k < n
    ensures |s| == n && forall i :: 0 <= i < n ==> s[i] == (i == n - 1 - k)
  {
    seq(n, i => i == n - 1 - k)
  }

  function And(a: Bits, b: Bits): (s: Bits)
    requires |a| == |b|
    ensures |s| == |a| && forall i :: 0 <= i < |a| ==> s[i] == (a[i] && b[i])
  {
    seq(|a|, i requires 0 <= i < |a| => a[i] && b[i])
  }

  function Or(a: Bits, b: Bits): (s: Bits)
    requires |a| == |b|
    ensures |s| == |a| && forall i :: 0 <= i < |a| ==> s[i] == (a[i] || b[i])
  {
    seq(|a|, i requires 0 <= i < |a| => a[i] || b[i])
  }

  function ShiftLeft(w: Word): Word {
    w[1..] + [false]
  }

  function ShiftRight(w: Word): Word {
    [false] + w[..15]
  }

  /** A byte moved to the high half of a word: b << 8. */
  function HighHalf(b: Byte): Word {
    b + Zeros(8)
  }

  /** A byte widened to a word. */
  function LowHalf(b: Byte): Word {
    Zeros(8) + b
  }

  function Reversed(s: Bits): (r: Bits)
    ensures |r| == |s| && forall i :: 0 <= i < |s| ==> r[i] == s[|s| - 1 - i]
  {
    seq(|s|, i requires 0 <= i < |s| => s[|s| - 1 - i])
  }

  const POLY_1021: Word := Hex(1, 0, 2, 1)
  const POLY_8408: Word := Hex(8, 4, 0, 8)

  /** The program's polynomial is the generator, and 0x8408 is the same one read backwards. */
  lemma Polynomials()
    ensures POLY_1021 == GENERATOR && POLY_8408 == Reversed(GENERATOR)
  {}

  /** The powers below x^16 in the generator: x^12, x^5 and 1. */
  lemma GeneratorPowers()
    ensures forall i :: 0 <= i < 16 ==> (GENERATOR[i] <==> i == 15 - 12 || i == 15 - 5 || i == 15 - 0)
  {}

  // ---------------------------------------------------------------- the bit reversals

  lemma TestBit(s: Bits, k: nat)
    requires k < |s|
    ensures And(s, One(|s|, k)) != Zeros(|s|) <==> s[|s| - 1 - k]
  {
    var a := And(s, One(|s|, k));
    assert a[|s| - 1 - k] == s[|s| - 1 - k];
    if !s[|s| - 1 - k] {
      assert a == Zeros(|s|);
    }
  }

  /** One round of a reversal: bit i of the source goes to bit n - 1 - i. */
  lemma ReversalRound(src: Bits, tmp: Bits, i: nat)
    requires |src| == |tmp| && i < |src|
    requires tmp == Reversed(src)[..i] + Zeros(|src| - i)
    ensures (if And(src, One(|src|, i)) != Zeros(|src|) then Or(tmp, One(|src|, |src| - 1 - i)) else tmp)
            == Reversed(src)[..i + 1] + Zeros(|src| - i - 1)
  {
    TestBit(src, i);
  }

  /** Writes the first byte of srcBuf, bits reversed, to the first byte of dBuf. */
  method InvertUint8(dBuf: array<Byte>, srcBuf: array<Byte>)
    requires dBuf.Length >= 1 && srcBuf.Length >= 1
    modifies dBuf
    ensures dBuf[0] == Reversed(old(srcBuf[0]))
    ensures forall k :: 1 <= k < dBuf.Length ==> dBuf[k] == old(dBuf[k])
  {
    var tmp: Byte := Zeros(8);
    var src := srcBuf[0];
    for i := 0 to 8
      modifies {}
      invariant tmp == Reversed(src)[..i] + Zeros(8 - i)
    {
      ReversalRound(src, tmp, i);
      if And(src, One(8, i)) != Zeros(8) { tmp := Or(tmp, One(8, 7 - i)); }
    }
    dBuf[0] := tmp;
  }

  /** Writes the first word of srcBuf, bits reversed, to the first word of dBuf. */
  method InvertUint16(dBuf: array<Word>, srcBuf: array<Word>)
    requires dBuf.Length >= 1 && srcBuf.Length >= 1
    modifies dBuf
    ensures dBuf[0] == Reversed(old(srcBuf[0]))
    ensures forall k :: 1 <= k < dBuf.Length ==> dBuf[k] == old(dBuf[k])
  {
    var tmp: Word := Zeros(16);
    var src := srcBuf[0];
    for i := 0 to 16
      modifies {}
      invariant tmp == Reversed(src)[..i] + Zeros(16 - i)
    {
      ReversalRound(src, tmp, i);
      if And(src, One(16, i)) != Zeros(16) { tmp := Or(tmp, One(16, 15 - i)); }
    }
    dBuf[0] := tmp;
  }

  // ---------------------------------------------------------------- messages and their checksum

  /** The bits of a message in the order they are taken: low-first in each byte. */
  function MessageBits(msg: seq<Byte>): (s: Bits)
    ensures |s| == 8 * |msg|
  {
    if msg == [] then [] else Reversed(msg[0]) + MessageBits(msg[1..])
  }

  lemma {:induction false} MessageBitsAppend(msg: seq<Byte>, b: Byte)
    ensures MessageBits(msg + [b]) == MessageBits(msg) + Reversed(b)
    decreases |msg|
  {
    if msg == [] {
      assert (msg + [b])[1..] == [];
    } else {
      assert (msg + [b])[1..] == msg[1..] + [b];
      MessageBitsAppend(msg[1..], b);
    }
  }

  lemma ReversedTwice(s: Bits)
    ensures Reversed(Reversed(s)) == s
  {}

  lemma {:induction false} MessageBitsInjective(a: seq<Byte>, b: seq<Byte>)
    requires |a| == |b| && MessageBits(a) == MessageBits(b)
    ensures a == b
    decreases |a|
  {
    if a != [] {
      assert Reversed(a[0]) == MessageBits(a)[..8] == Reversed(b[0]);
      ReversedTwice(a[0]);
      ReversedTwice(b[0]);
      assert MessageBits(a[1..]) == MessageBits(a)[8..] == MessageBits(b[1..]);
      MessageBitsInjective(a[1..], b[1..]);
      assert a == [a[0]] + a[1..] && b == [b[0]] + b[1..];
    }
  }

  /** The remainder of message * x^16 by the generator, as a word read low bit first. */
  ghost function Checksum(msg: seq<Byte>): Word {
    Reversed(Remainder(MessageBits(msg) + Zeros(16)))
  }

  // ---------------------------------------------------------------- the CRC loop

  /** Feeding a byte: XOR it in at the high powers, then step eight times. */
  lemma FeedByte(r: Bits, b: Byte)
    requires |r| == 16
    ensures Feed(r, Reversed(b)) == Steps(Xor(r, HighHalf(Reversed(b))), 8)
  {
    FeedIsXorSteps(r, Reversed(b));
  }

  lemma {:induction false} StepsLast(r: Bits, n: nat)
    requires |r| == 16
    ensures Steps(r, n + 1) == Step(Steps(r, n))
    decreases n
  {
    if n > 0 { StepsLast(Step(r), n - 1); }
  }

  lemma ShiftIsStep(w: Word)
    ensures Step(w) == if And(w, One(16, 15)) != Zeros(16) then Xor(ShiftLeft(w), POLY_1021) else ShiftLeft(w)
  {
    TestBit(w, 15);
    Polynomials();
  }

  lemma FeedMessageByte(msg: seq<Byte>, b: Byte, r: Word)
    requires r == Feed(Zeros(16), MessageBits(msg))
    ensures Steps(Xor(r, HighHalf(Reversed(b))), 8) == Feed(Zeros(16), MessageBits(msg + [b]))
  {
    FeedByte(r, b);
    FeedConcat(Zeros(16), MessageBits(msg), Reversed(b));
    MessageBitsAppend(msg, b);
  }

  method GetCrc16Ccitt(puchMsg: array<Byte>, usDataLen: nat) returns (crc: Word)
    requires usDataLen <= puchMsg.Length
    ensures crc == Checksum(puchMsg[..usDataLen])
  {
    var wCRCin := new Word[1](_ => Zeros(16));
    var wCPoly := POLY_1021;
    var wChar := new Byte[1](_ => Zeros(8));
    for k := 0 to usDataLen
      invariant wCRCin[0] == Feed(Zeros(16), MessageBits(puchMsg[..k]))
    {
      FeedMessageByte(puchMsg[..k], puchMsg[k], wCRCin[0]);
      assert puchMsg[..k + 1] == puchMsg[..k] + [puchMsg[k]];
      wChar[0] := puchMsg[k];
      InvertUint8(wChar, wChar);
      wCRCin[0] := Xor(wCRCin[0], HighHalf(wChar[0]));
      ghost var start := wCRCin[0];
      for i := 0 to 8
        modifies wCRCin
        invariant wCRCin[0] == Steps(start, i)
      {
        ShiftIsStep(wCRCin[0]);
        StepsLast(start, i);
        if And(wCRCin[0], One(16, 15)) != Zeros(16) {
          wCRCin[0] := Xor(ShiftLeft(wCRCin[0]), wCPoly);
        } else {
          wCRCin[0] := ShiftLeft(wCRCin[0]);
        }
      }
    }
    FeedFromZero(MessageBits(puchMsg[..usDataLen]));
    InvertUint16(wCRCin, wCRCin);
    return wCRCin[0];
  }

  // ---------------------------------------------------------------- the LSB-first form

  function LsbStep(c: Word): Word {
    if c[15] then Xor(ShiftRight(c), POLY_8408) else ShiftRight(c)
  }

  function LsbSteps(c: Word, n: nat): Word
    decreases n
  {
    if n == 0 then c else LsbSteps(LsbStep(c), n - 1)
  }

  /** The usual LSB-first algorithm, with no reflection of input or output. */
  function LsbCrc(c: Word, msg: seq<Byte>): Word
    decreases |msg|
  {
    if msg == [] then c else LsbCrc(LsbSteps(Xor(c, LowHalf(msg[0])), 8), msg[1..])
  }

  lemma ReversedXor(a: Bits, b: Bits)
    requires |a| == |b|
    ensures Reversed(Xor(a, b)) == Xor(Reversed(a), Reversed(b))
  {}

  lemma LsbStepReversed(c: Word)
    ensures Reversed(LsbStep(c)) == Step(Reversed(c))
  {
    Polynomials();
    ReversedXor(ShiftRight(c), POLY_8408);
    assert Reversed(ShiftRight(c)) == Reversed(c)[1..] + [false];
    ReversedTwice(GENERATOR);
  }

  lemma {:induction false} LsbStepsReversed(c: Word, n: nat)
    ensures Reversed(LsbSteps(c, n)) == Steps(Reversed(c), n)
    decreases n
  {
    if n > 0 {
      LsbStepReversed(c);
      LsbStepsReversed(LsbStep(c), n - 1);
    }
  }

  lemma {:induction false} LsbCrcReversed(c: Word, msg: seq<Byte>)
    ensures Reversed(LsbCrc(c, msg)) == Feed(Reversed(c), MessageBits(msg))
    decreases |msg|
  {
    if msg != [] {
      var d := Xor(c, LowHalf(msg[0]));
      ReversedXor(c, LowHalf(msg[0]));
      assert Reversed(LowHalf(msg[0])) == HighHalf(Reversed(msg[0]));
      LsbStepsReversed(d, 8);
      FeedByte(Reversed(c), msg[0]);
      LsbCrcReversed(LsbSteps(d, 8), msg[1..]);
      FeedConcat(Reversed(c), Reversed(msg[0]), MessageBits(msg[1..]));
    }
  }

  /** The LSB-first algorithm computes the same checksum. */
  lemma LsbCrcIsChecksum(msg: seq<Byte>)
    ensures LsbCrc(Zeros(16), msg) == Checksum(msg)
  {
    LsbCrcReversed(Zeros(16), msg);
    assert Reversed(Zeros(16)) == Zeros(16);
    FeedFromZero(MessageBits(msg));
    ReversedTwice(LsbCrc(Zeros(16), msg));
  }

  // ---------------------------------------------------------------- what the receiver detects

  /** The bits in which two messages of equal length differ. */
  ghost function ErrorPattern(a: seq<Byte>, b: seq<Byte>): Bits
    requires |a| == |b|
  {
    Xor(MessageBits(a), MessageBits(b))
  }

  /** Errors of odd weight, and errors confined to 16 consecutive bits. */
  ghost predicate Detectable(sent: seq<Byte>, received: seq<Byte>)
    requires |sent| == |received|
  {
    && sent != received
    && (OddWeight(ErrorPattern(sent, received))
        || exists i: nat :: BurstAt(ErrorPattern(sent, received), i))
  }

  lemma DetectableChangesChecksum(sent: seq<Byte>, received: seq<Byte>)
    requires |sent| == |received| && Detectable(sent, received)
    ensures Checksum(sent) != Checksum(received)
  {
    var a, b := MessageBits(sent), MessageBits(received);
    if a == b { MessageBitsInjective(sent, received); }
    if OddWeight(Xor(a, b)) {
      OddErrorDetected(a, b);
    } else {
      var i: nat :| BurstAt(Xor(a, b), i);
      BurstDetected(a, b, i);
    }
    ReversedTwice(Remainder(a + Zeros(16)));
    ReversedTwice(Remainder(b + Zeros(16)));
  }

  /** A wrong message passes exactly when its error pattern is a multiple of the generator. */
  lemma SameChecksumIffMultiple(sent: seq<Byte>, received: seq<Byte>)
    requires |sent| == |received|
    ensures Checksum(sent) == Checksum(received) <==>
            exists q: Bits :: ErrorPattern(sent, received) + Zeros(16) == Product(q, Zeros(16))
  {
    var a, b := MessageBits(sent), MessageBits(received);
    MissedIffMultiple(a, b);
    ReversedTwice(Remainder(a + Zeros(16)));
    ReversedTwice(Remainder(b + Zeros(16)));
  }

  /**
    A datagram has arrived: bufLen bytes in recvBuf, dataSize expected, checkSum announced.
    It is handed to the user exactly when its length and its checksum match.  So a datagram
    that arrives with a detectable error is refused.
  */
  method RecvUdpData(recvBuf: array<Byte>, bufLen: nat, dataSize: nat, checkSum: Word) returns (flag: int)
    requires bufLen <= recvBuf.Length
    ensures flag ==
            if bufLen == dataSize && Checksum(recvBuf[..bufLen]) == checkSum then RECVDATASUCC else RECVUDPDATAFAIL
    ensures flag == 10 <==> bufLen == dataSize && Checksum(recvBuf[..bufLen]) == checkSum
    ensures flag != 10 ==> flag == 18
    ensures forall sent :: |sent| == bufLen && Checksum(sent) == checkSum && Detectable(sent, recvBuf[..bufLen])
                           ==> flag == RECVUDPDATAFAIL
  {
    if bufLen == dataSize {
      var newCheckSum := GetCrc16Ccitt(recvBuf, dataSize);
      flag := if newCheckSum != checkSum then RECVUDPDATAFAIL else RECVDATASUCC;
    } else {
      flag := RECVUDPDATAFAIL;
    }
    forall sent | |sent| == bufLen && Checksum(sent) == checkSum && Detectable(sent, recvBuf[..bufLen])
      ensures Checksum(recvBuf[..bufLen]) != checkSum
    {
      DetectableChangesChecksum(sent, recvBuf[..bufLen]);
    }
  }
}
