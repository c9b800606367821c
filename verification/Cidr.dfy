/** The block of addresses a CIDR names, computed on 32-bit sets the way the address provider does. */
module Cidr {
  import Division

  lemma {:induction false} Pow2Grows(a: nat, b: nat)
    requires a <= b
    ensures Pow2(a) <= Pow2(b)
    decreases b
  {
    if a < b {
      Pow2Grows(a, b - 1);
    }
  }

  lemma {:induction false} Pow2Adds(a: nat, b: nat)
    ensures Pow2(a + b) == Pow2(a) * Pow2(b)
  {
    if a > 0 {
      Pow2Adds(a - 1, b);
      Doubled(Pow2(a - 1), Pow2(b));
    }
  }

  lemma Doubled(x: nat, y: nat)
    ensures 2 * (x * y) == (2 * x) * y
  {
  }

  /** A bitset, least significant bit first. */
  type Bits = seq<bool>

  function Pow2(k: nat): (r: nat)
    ensures r > 0
  {
    if k == 0 then 1 else 2 * Pow2(k - 1)
  }

  function FromNat(n: nat, width: nat): (b: Bits)
    ensures |b| == width
  {
    if width == 0 then [] else [n % 2 == 1] + FromNat(n / 2, width - 1)
  }

  function ToNat(b: Bits): nat {
    if b == [] then 0 else (if b[0] then 1 else 0) + 2 * ToNat(b[1..])
  }

  function And(a: Bits, b: Bits): (r: Bits)
    requires |a| == |b|
    ensures |r| == |a|
  {
    seq(|a|, i requires 0 <= i < |a| => a[i] && b[i])
  }

  function Or(a: Bits, b: Bits): (r: Bits)
    requires |a| == |b|
    ensures |r| == |a|
  {
    seq(|a|, i requires 0 <= i < |a| => a[i] || b[i])
  }

  function Flip(a: Bits): (r: Bits)
    ensures |r| == |a|
  {
    seq(|a|, i requires 0 <= i < |a| => !a[i])
  }

  /** `<<=` on a bitset: bits pushed past the width are lost, whatever the distance. */
  function ShiftLeft(a: Bits, distance: nat): (r: Bits)
    ensures |r| == |a|
  {
    seq(|a|, i requires 0 <= i < |a| => i >= distance && a[i - distance])
  }

  const WIDTH: nat := 32

  /** The size of the address space. */
  lemma AddressSpace()
    ensures Pow2(WIDTH) == 0x1_0000_0000 && Pow2(16) == 0x1_0000
  {
    assert Pow2(4) == 2 * Pow2(3) && Pow2(3) == 2 * Pow2(2) && Pow2(2) == 2 * Pow2(1) && Pow2(1) == 2;
    Pow2Adds(4, 4);
    Pow2Adds(8, 8);
    Pow2Adds(16, 16);
  }

  /** An IPv4 CIDR, parsed. */
  datatype Block = Block(address: nat, prefix: nat) {

    predicate WellFormed() {
      address < Pow2(WIDTH) && prefix <= WIDTH
    }

    function Size(): (size: nat)
      requires WellFormed()
      ensures size > 0
    {
      Pow2(WIDTH - prefix)
    }

    function First(): nat
      requires WellFormed()
    {
      RemainderBelow(address, Size());
      address - address % Size()
    }

    /** The broadcast address. */
    function Last(): nat
      requires WellFormed()
    {
      First() + Size() - 1
    }

    /** Addresses the half-open range of the allocator covers: all of the block but the last. */
    function Capacity(): nat
      requires WellFormed()
    {
      Size() - 1
    }
  }

  /** The shifts, masks and flips of generate_ip_v4_range arrive at the block's first and last address. */
  method GenerateIpV4Range(block: Block) returns (first: nat, last: nat)
    requires block.address < 0x1_0000_0000 && block.prefix <= 32
    ensures block.WellFormed() && first == block.First() && last == block.Last()
    ensures first == block.address - block.address % Pow2(32 - block.prefix)
    ensures last == first + Pow2(32 - block.prefix) - 1
  {
    AddressSpace();
    first, last := MaskedRange(block.address, WIDTH - block.prefix, WIDTH, 64);
  }

  /** On bitsets of `width` bits, initialised from an all-ones word of `wordWidth` bits. */
  method MaskedRange(n: nat, distance: nat, width: nat, wordWidth: nat) returns (first: nat, last: nat)
    requires n < Pow2(width) && distance <= width <= wordWidth
    ensures first == n - n % Pow2(distance) && last == first + Pow2(distance) - 1
  {
    var address := FromNat(n, width);
    var allOnes := FromNat(Pow2(wordWidth) - 1, width);
    allOnes := ShiftLeft(allOnes, distance);
    var mask := allOnes;
    var firstBits := And(address, mask);
    mask := Flip(mask);
    var lastBits := Or(firstBits, mask);
    first, last := ToNat(firstBits), ToNat(lastBits);
    ShiftedOnes(wordWidth, width, distance);
    MaskClears(n, width, distance);
    MaskFills(n, width, distance);
  }

  lemma RemainderBelow(n: nat, d: nat)
    requires d > 0
    ensures n % d <= n
  {
    assert n == d * (n / d) + n % d && d * (n / d) >= 0;
  }

  lemma ShiftedOnes(k: nat, width: nat, distance: nat)
    requires k >= width
    ensures ShiftLeft(FromNat(Pow2(k) - 1, width), distance) == HighMask(width, distance)
  {
    AllOnes(k, width);
  }

  function HighMask(width: nat, k: nat): Bits {
    seq(width, i => i >= k)
  }

  lemma {:induction false} AllOnes(k: nat, width: nat)
    requires k >= width
    ensures FromNat(Pow2(k) - 1, width) == HighMask(width, 0)
  {
    if width > 0 {
      assert (Pow2(k) - 1) / 2 == Pow2(k - 1) - 1;
      AllOnes(k - 1, width - 1);
    }
  }

  lemma {:induction false} BitsOfNat(n: nat, width: nat)
    requires n < Pow2(width)
    ensures ToNat(FromNat(n, width)) == n
  {
    if width > 0 {
      assert FromNat(n, width)[1..] == FromNat(n / 2, width - 1);
      BitsOfNat(n / 2, width - 1);
    }
  }

  /** Clearing the k low bits takes off the remainder by 2^k. */
  lemma {:induction false} MaskClears(n: nat, width: nat, k: nat)
    requires n < Pow2(width) && k <= width
    ensures ToNat(And(FromNat(n, width), HighMask(width, k))) == n - n % Pow2(k)
  {
    var bits := And(FromNat(n, width), HighMask(width, k));
    if k == 0 {
      assert bits == FromNat(n, width);
      BitsOfNat(n, width);
    } else {
      assert bits[1..] == And(FromNat(n / 2, width - 1), HighMask(width - 1, k - 1));
      MaskClears(n / 2, width - 1, k - 1);
      HalveRemainder(n, Pow2(k - 1));
    }
  }

  /** Setting them as well adds 2^k - 1. */
  lemma {:induction false} MaskFills(n: nat, width: nat, k: nat)
    requires n < Pow2(width) && k <= width
    ensures var mask := HighMask(width, k);
            ToNat(Or(And(FromNat(n, width), mask), Flip(mask))) == n - n % Pow2(k) + Pow2(k) - 1
  {
    var mask := HighMask(width, k);
    var bits := Or(And(FromNat(n, width), mask), Flip(mask));
    if k == 0 {
      assert bits == FromNat(n, width);
      BitsOfNat(n, width);
    } else {
      var low := HighMask(width - 1, k - 1);
      assert bits[1..] == Or(And(FromNat(n / 2, width - 1), low), Flip(low));
      MaskFills(n / 2, width - 1, k - 1);
      HalveRemainder(n, Pow2(k - 1));
    }
  }

  lemma HalveRemainder(n: nat, m: nat)
    requires m > 0
    ensures n % (2 * m) == 2 * (n / 2 % m) + n % 2
  {
    var q, r := n / 2 / m, n / 2 % m;
    assert n == (2 * m) * q + (2 * r + n % 2) by {
      assert n / 2 == m * q + r;
      assert 2 * (m * q + r) == (2 * m) * q + 2 * r;
    }
    Division.DivideUnique(n, 2 * m, q, 2 * r + n % 2);
  }

  /** An address lies in the block iff its leading `prefix` bits are those of the CIDR (RFC 4632, section 3.1). */
  lemma BlockMembership(block: Block, x: nat)
    requires block.address < 0x1_0000_0000 && block.prefix <= 32
    ensures block.WellFormed()
    ensures block.First() <= x <= block.Last() <==> x / Pow2(32 - block.prefix) == block.address / Pow2(32 - block.prefix)
  {
    AddressSpace();
    SameQuotient(block.Size(), block.address, x);
  }

  lemma SameQuotient(size: nat, a: nat, x: nat)
    requires size > 0
    ensures a - a % size <= x <= a - a % size + size - 1 <==> x / size == a / size
  {
    Divided(a, size);
    Divided(x, size);
    Quotients(size, a / size, x, x / size, x % size);
  }

  lemma Divided(n: nat, d: nat)
    requires d > 0
    ensures n == d * (n / d) + n % d && n % d < d
  {
  }

  lemma Quotients(size: nat, q: nat, x: nat, p: nat, r: nat)
    requires size > 0 && x == size * p + r && r < size && p == x / size
    ensures size * q <= x <= size * q + size - 1 <==> p == q
  {
    if size * q <= x <= size * q + size - 1 {
      Division.DivideUnique(x, size, q, x - size * q);
    }
  }
}
