/** The end of an IPv6 block, computed by a carry loop over the sixteen octets of the address. */
module Ipv6Range {
  import Division
  import opened Bytes
  import opened Cidr

  lemma {:induction false} PowersAgree(k: nat)
    ensures Pow256(k) == Pow2(8 * k)
  {
    if k > 0 {
      PowersAgree(k - 1);
      Pow2Adds(8, 8 * (k - 1));
      assert Pow2(8) == 2 * Pow2(7) && Pow2(7) == 2 * Pow2(6) && Pow2(6) == 2 * Pow2(5) && Pow2(5) == 2 * Pow2(4);
      assert Pow2(4) == 2 * Pow2(3) && Pow2(3) == 2 * Pow2(2) && Pow2(2) == 2 * Pow2(1) && Pow2(1) == 2;
    }
  }

  /** Changing one octet changes the value by its place. */
  lemma {:induction false} ValueUpdate(s: seq<byte>, i: nat, v: byte)
    requires i < |s|
    ensures Value(s[i := v]) == Value(s) + (v - s[i]) * Pow256(|s| - 1 - i)
  {
    var n := |s| - 1;
    if i == n {
      assert s[i := v][..n] == s[..n];
    } else {
      assert s[i := v][..n] == s[..n][i := v];
      ValueUpdate(s[..n], i, v);
      Times256(v - s[i], Pow256(n - 1 - i));
    }
  }

  lemma Times256(x: int, p: nat)
    ensures 256 * (x * p) == x * (256 * p)
  {
  }

  /** Adding into one octet and carrying out of it keeps the total. */
  lemma CarryStep(s: seq<byte>, i: nat, toAdd: nat, r: byte, q: nat)
    requires i < |s| && r + 256 * q == s[i] + toAdd
    ensures Value(s[i := r]) + q * Pow256(|s| - i) == Value(s) + toAdd * Pow256(|s| - 1 - i)
  {
    ValueUpdate(s, i, r);
    Regroup(s[i], r, q, toAdd, Pow256(|s| - 1 - i));
  }

  lemma Regroup(d: int, r: int, q: int, t: int, p: int)
    requires r + 256 * q == d + t
    ensures (r - d) * p + q * (256 * p) == t * p
  {
    assert (r - d) * p + q * (256 * p) == (r - d + 256 * q) * p;
  }

  method AddOctet(bytes: array<byte>, offset: nat, toAdd: nat) returns (carry: nat)
    requires offset < bytes.Length && toAdd < 256
    modifies bytes
    ensures carry < 256
    ensures Value(bytes[..]) + carry * Pow256(bytes.Length - offset) ==
            Value(old(bytes[..])) + toAdd * Pow256(bytes.Length - 1 - offset)
  {
    var value := bytes[offset] + toAdd;
    CarryStep(bytes[..], offset, toAdd, value % 256, value / 256);
    bytes[offset] := value % 256;
    assert bytes[..] == old(bytes[..])[offset := value % 256];
    carry := value / 256;
  }

  /** The loop itself: add into one octet, carry leftwards, and drop a carry out of the first octet. */
  method AddWithCarry(bytes: array<byte>, place: nat, increment: nat)
    requires place < bytes.Length && increment < 256
    modifies bytes
    ensures Value(bytes[..]) ==
            (Value(old(bytes[..])) + increment * Pow256(bytes.Length - 1 - place)) % Pow256(bytes.Length)
  {
    var offset, toAdd := place, increment;
    ghost var n, weight := bytes.Length, Pow256(bytes.Length - 1 - place);
    ghost var goal := Value(bytes[..]) + increment * weight;
    while toAdd != 0
      invariant 0 <= toAdd < 256 && 0 <= offset < n
      invariant weight == Pow256(n - 1 - offset)
      invariant Value(bytes[..]) + toAdd * weight == goal
      decreases offset, toAdd
    {
      toAdd := AddOctet(bytes, offset, toAdd);
      weight := Pow256(n - offset);
      if offset == 0 {
        break;
      }
      offset := offset - 1;
    }
    ValueBound(bytes[..]);
    DropCarry(goal, Value(bytes[..]), toAdd, weight, Pow256(n));
  }

  /** Either nothing is left to carry, or what is left weighs a whole modulus. */
  lemma DropCarry(goal: nat, value: nat, carry: nat, weight: nat, modulus: nat)
    requires goal == value + carry * weight && value < modulus
    requires carry == 0 || weight == modulus
    ensures value == goal % modulus
  {
    Division.DivideUnique(goal, modulus, carry, value);
  }

  /**
   * For a prefix that is no multiple of 8 the end is start + 2^(128 - size) modulo 2^128, with 16 octets and
   * 128 bits as the width of an address; the width is that of `start` here. For a multiple of 8 the increment
   * 1 << 8 is cut to zero by its 8-bit type, and then the range is empty. A size beyond the width is read
   * without a check as well; only for multiples of 8 no octet is touched.
   */
  method EndAddress(start: seq<byte>, size: nat) returns (end: seq<byte>)
    requires size < 8 * |start| || size % 8 == 0
    ensures |end| == |start|
    ensures end == start <==> size % 8 == 0
    ensures size % 8 != 0 ==> Value(end) == (Value(start) + Pow2(8 * |start| - size)) % Pow256(|start|)
  {
    var bytes := new byte[|start|](i requires 0 <= i < |start| => start[i]);
    assert bytes[..] == start;
    var toAdd := Pow2(8 - size % 8) % 256;
    Increment(size % 8);
    if toAdd != 0 {
      Place(size, |start|);
      AddWithCarry(bytes, size / 8, toAdd);
    }
    end := bytes[..];
    if size % 8 != 0 {
      EndDiffers(start, size, |start|, 8 * |start| - size, end);
    }
  }

  /** What is added to one octet: nothing but for the bits of a prefix that ends inside it. */
  lemma Increment(bits: nat)
    requires bits < 8
    ensures Pow2(8 - bits) % 256 == if bits == 0 then 0 else Pow2(8 - bits)
  {
    assert Pow2(8) == 2 * Pow2(7) && Pow2(7) == 2 * Pow2(6) && Pow2(6) == 2 * Pow2(5) && Pow2(5) == 2 * Pow2(4);
    assert Pow2(4) == 2 * Pow2(3) && Pow2(3) == 2 * Pow2(2) && Pow2(2) == 2 * Pow2(1) && Pow2(1) == 2;
    if bits != 0 {
      Pow2Grows(8 - bits, 7);
    }
  }

  /** That octet and what is added to it denote 2^(8 * octets - size). */
  lemma Place(size: nat, octets: nat)
    requires size % 8 != 0 && size < 8 * octets
    ensures size / 8 < octets && Pow2(8 - size % 8) * Pow256(octets - 1 - size / 8) == Pow2(8 * octets - size)
  {
    PowersAgree(octets - 1 - size / 8);
    Pow2Adds(8 - size % 8, 8 * (octets - 1 - size / 8));
  }

  /** The sum never comes back to the start. */
  lemma EndDiffers(start: seq<byte>, size: nat, octets: nat, distance: nat, end: seq<byte>)
    requires octets == |start| == |end| && size % 8 != 0 && size + distance == 8 * octets
    requires Value(end) == (Value(start) + Pow2(distance)) % Pow256(octets)
    ensures end != start
  {
    ValueBound(start);
    IncrementFits(size, octets);
    SumDiffers(Value(start), Pow2(distance), Pow256(octets));
  }

  lemma IncrementFits(size: nat, octets: nat)
    requires size % 8 != 0 && size <= 8 * octets
    ensures Pow2(8 * octets - size) < Pow256(octets)
  {
    PowersAgree(octets);
    Pow2Grows(8 * octets - size, 8 * octets - 1);
  }

  lemma SumDiffers(v: nat, increment: nat, m: nat)
    requires v < m && 0 < increment < m
    ensures (v + increment) % m != v
  {
    if v + increment < m {
      Division.DivideUnique(v + increment, m, 0, v + increment);
    } else {
      Division.DivideUnique(v + increment, m, 1, v + increment - m);
    }
  }
}
