/**
 * The frame format spoken over the control socket: one byte holding target and operation, a
 * length in one of three forms, then the payload.
 */
module Frames {
  import opened Bytes

  const OPERATION_MASK: byte := 0x1F
  const TARGET_MASK: byte := 0xE0
  const LENGTH_MASK: byte := 0x7F

  /** std::size_t is 64 bits wide, so no vector is longer than this. */
  const SIZE_LIMIT: nat := 0x1_0000_0000_0000_0000

  type Payload = s: seq<byte> | |s| < SIZE_LIMIT

  datatype Message = Message(target: byte, operation: byte, payload: Payload)

  /** What survives of a message on the wire: only the masked bits of target and operation. */
  function Masked(m: Message): Message {
    m.(target := BitAnd(m.target, TARGET_MASK), operation := BitAnd(m.operation, OPERATION_MASK))
  }

  function LengthField(n: nat): seq<byte>
    requires n < SIZE_LIMIT
  {
    if n < 126 then Digits(n, 1)
    else if n < 65536 then [126] + Digits(n, 2)
    else [127] + Digits(n, 8)
  }

  function FirstByte(m: Message): byte {
    BitOr(BitAnd(m.operation, OPERATION_MASK), BitAnd(m.target, TARGET_MASK))
  }

  function Encode(m: Message): (frame: seq<byte>) {
    [FirstByte(m)] + LengthField(|m.payload|) + m.payload
  }

  function EncodeAll(ms: seq<Message>): seq<byte> {
    if ms == [] then [] else Encode(ms[0]) + EncodeAll(ms[1..])
  }

  /** The header vector of connection::write is filled slot by slot; the frame it yields is the encoding. */
  method ComposeFrame(target: byte, operation: byte, payload: Payload) returns (frame: seq<byte>)
    ensures frame == Encode(Message(target, operation, payload))
  {
    var length := |payload|;
    var header := new byte[2 + (if length >= 126 then 2 else 0) + (if length >= 65536 then 6 else 0)](_ => 0);
    header[0] := BitOr(BitAnd(operation, OPERATION_MASK), BitAnd(target, TARGET_MASK));
    if length < 126 {
      header[1] := Octet(length, 0);
    } else if length < 65536 {
      header[1] := 126;
      header[2] := Octet(length, 1);
      header[3] := Octet(length, 0);
    } else {
      header[1] := 127;
      header[2] := Octet(length, 7);
      header[3] := Octet(length, 6);
      header[4] := Octet(length, 5);
      header[5] := Octet(length, 4);
      header[6] := Octet(length, 3);
      header[7] := Octet(length, 2);
      header[8] := Octet(length, 1);
      header[9] := Octet(length, 0);
    }
    frame := header[..] + payload;
    LengthForm(length);
    assert header[..] == [header[0]] + LengthField(length);
  }

  /** The octets of a length field, written out. */
  lemma LengthForm(n: nat)
    requires n < SIZE_LIMIT
    ensures LengthField(n) ==
            if n < 126 then [Octet(n, 0)]
            else if n < 65536 then [126, Octet(n, 1), Octet(n, 0)]
            else [127, Octet(n, 7), Octet(n, 6), Octet(n, 5), Octet(n, 4), Octet(n, 3), Octet(n, 2), Octet(n, 1), Octet(n, 0)]
  {
    var width := if n < 126 then 1 else if n < 65536 then 2 else 8;
    forall i | 0 <= i < width ensures Digits(n, width)[i] == Octet(n, width - 1 - i) {
      DigitIsOctet(n, width, width - 1 - i);
    }
  }

  /** Target and operation use disjoint bits, so both are recovered from the first byte. */
  lemma MasksDisjoint(m: Message)
    ensures BitAnd(FirstByte(m), TARGET_MASK) == Masked(m).target
    ensures BitAnd(FirstByte(m), OPERATION_MASK) == Masked(m).operation
  {
    MasksShareNoBit();
    DisjointMasks(m.operation, OPERATION_MASK, m.target, TARGET_MASK);
  }

  lemma MasksShareNoBit()
    ensures BitAnd(OPERATION_MASK, TARGET_MASK) == 0 && BitAnd(TARGET_MASK, OPERATION_MASK) == 0
  {
    assert BitAnd(1, 14) == 0 && BitAnd(14, 1) == 0;
    assert BitAnd(3, 28) == 0 && BitAnd(28, 3) == 0;
    assert BitAnd(7, 56) == 0 && BitAnd(56, 7) == 0;
    assert BitAnd(15, 112) == 0 && BitAnd(112, 15) == 0;
  }

  /** Target codes use the three high bits of an octet, operation codes the five low ones. */
  predicate Coded(m: Message) {
    m.target % 32 == 0 && m.operation < 32
  }

  /** Such codes lose nothing, and share the first octet as their sum. */
  lemma CodesKept(m: Message)
    requires Coded(m)
    ensures Masked(m) == m
    ensures FirstByte(m) == m.target + m.operation
  {
    HighBits(m.target / 32);
    assert Ones(5) == OPERATION_MASK;
    AndOnes(m.operation, 5);
    FiveBits(m.operation, m.target);
    OrAdds(m.operation, m.target, 5);
  }

  lemma HighBits(k: nat)
    requires k < 8
    ensures BitAnd(32 * k, 224) == 32 * k
  {
    assert Ones(3) == 7;
    AndOnes(k, 3);
    AndDouble(k, 7);
    AndDouble(2 * k, 14);
    AndDouble(4 * k, 28);
    AndDouble(8 * k, 56);
    AndDouble(16 * k, 112);
  }

  /** The j low bits are zero, or the others are. */
  predicate Clear(high: nat, j: nat) {
    j == 0 || (high % 2 == 0 && Clear(high / 2, j - 1))
  }

  predicate Fits(low: nat, j: nat) {
    if j == 0 then low == 0 else Fits(low / 2, j - 1)
  }

  lemma {:induction false} OrAdds(low: nat, high: nat, j: nat)
    requires Fits(low, j) && Clear(high, j)
    ensures BitOr(low, high) == low + high
  {
    if j > 0 {
      OrAdds(low / 2, high / 2, j - 1);
      OrBits(low, high);
      SameBits(BitOr(low, high), low + high);
    }
  }

  lemma FiveBits(low: nat, high: nat)
    requires low < 32 && high % 32 == 0
    ensures Fits(low, 5) && Clear(high, 5)
  {
    var k := high / 32;
    assert Ones(5) == 31;
    FitsBelow(low, 5);
    ClearDouble(k, 0);
    ClearDouble(2 * k, 1);
    ClearDouble(4 * k, 2);
    ClearDouble(8 * k, 3);
    ClearDouble(16 * k, 4);
    assert high == 2 * (16 * k);
  }

  lemma {:induction false} FitsBelow(low: nat, j: nat)
    requires low <= Ones(j)
    ensures Fits(low, j)
  {
    if j > 0 {
      FitsBelow(low / 2, j - 1);
    }
  }

  lemma ClearDouble(x: nat, j: nat)
    requires Clear(x, j)
    ensures Clear(2 * x, j + 1)
  {
    assert 2 * x / 2 == x;
  }

  /** The seven low bits of a length byte are the byte itself while it is below 128. */
  lemma LengthBits(b: byte)
    requires b < 128
    ensures BitAnd(b, LENGTH_MASK) == b
  {
    assert Ones(7) == LENGTH_MASK;
    AndOnes(b, 7);
  }
}
