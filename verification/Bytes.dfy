/** Octets and their big-endian reading, shared by the frame codec and the IPv6 range arithmetic. */
module Bytes {
  import Division

  type byte = n: nat | n < 256

  /** `a & b`, bit by bit. */
  function BitAnd(a: nat, b: nat): (r: nat)
    ensures r <= a && r <= b
  {
    if a == 0 || b == 0 then 0 else 2 * BitAnd(a / 2, b / 2) + if a % 2 == 1 && b % 2 == 1 then 1 else 0
  }

  /** `a | b`, bit by bit. */
  function BitOr(a: nat, b: nat): (r: nat)
    ensures r <= a + b
  {
    if a == 0 then b
    else if b == 0 then a
    else 2 * BitOr(a / 2, b / 2) + if a % 2 == 1 || b % 2 == 1 then 1 else 0
  }

  lemma AndBits(a: nat, b: nat)
    ensures BitAnd(a, b) / 2 == BitAnd(a / 2, b / 2)
    ensures BitAnd(a, b) % 2 == 1 <==> a % 2 == 1 && b % 2 == 1
  {
  }

  lemma OrBits(a: nat, b: nat)
    ensures BitOr(a, b) / 2 == BitOr(a / 2, b / 2)
    ensures BitOr(a, b) % 2 == 1 <==> a % 2 == 1 || b % 2 == 1
  {
  }

  /** Numbers with the same half and the same last bit are the same. */
  lemma SameBits(x: nat, y: nat)
    requires x / 2 == y / 2 && (x % 2 == 1 <==> y % 2 == 1)
    ensures x == y
  {
  }

  lemma {:induction false} AndOverOr(x: nat, y: nat, m: nat)
    ensures BitAnd(BitOr(x, y), m) == BitOr(BitAnd(x, m), BitAnd(y, m))
    decreases x + y
  {
    if x != 0 && y != 0 {
      AndOverOr(x / 2, y / 2, m / 2);
      AndBits(BitOr(x, y), m);
      OrBits(x, y);
      OrBits(BitAnd(x, m), BitAnd(y, m));
      AndBits(x, m);
      AndBits(y, m);
      SameBits(BitAnd(BitOr(x, y), m), BitOr(BitAnd(x, m), BitAnd(y, m)));
    }
  }

  lemma {:induction false} AndTwice(a: nat, m: nat, n: nat)
    ensures BitAnd(BitAnd(a, m), n) == BitAnd(a, BitAnd(m, n))
    decreases a
  {
    if a != 0 {
      AndTwice(a / 2, m / 2, n / 2);
      AndBits(BitAnd(a, m), n);
      AndBits(a, m);
      AndBits(a, BitAnd(m, n));
      AndBits(m, n);
      SameBits(BitAnd(BitAnd(a, m), n), BitAnd(a, BitAnd(m, n)));
    }
  }

  lemma {:induction false} AndSelf(m: nat)
    ensures BitAnd(m, m) == m
  {
    if m != 0 {
      AndSelf(m / 2);
    }
  }

  /** Two fields under disjoint masks can be or-ed together and masked out again. */
  lemma DisjointMasks(x: nat, m: nat, y: nat, n: nat)
    requires BitAnd(m, n) == 0 && BitAnd(n, m) == 0
    ensures BitAnd(BitOr(BitAnd(x, m), BitAnd(y, n)), m) == BitAnd(x, m)
    ensures BitAnd(BitOr(BitAnd(x, m), BitAnd(y, n)), n) == BitAnd(y, n)
  {
    AndOverOr(BitAnd(x, m), BitAnd(y, n), m);
    AndOverOr(BitAnd(x, m), BitAnd(y, n), n);
    AndTwice(x, m, m);
    AndTwice(x, m, n);
    AndTwice(y, n, m);
    AndTwice(y, n, n);
    AndSelf(m);
    AndSelf(n);
  }

  /** Bit k of a number. */
  predicate Bit(n: nat, k: nat) {
    if k == 0 then n % 2 == 1 else Bit(n / 2, k - 1)
  }

  lemma {:induction false} AndBitwise(a: nat, b: nat, k: nat)
    ensures Bit(BitAnd(a, b), k) <==> Bit(a, k) && Bit(b, k)
    decreases k
  {
    AndBits(a, b);
    if k > 0 {
      AndBitwise(a / 2, b / 2, k - 1);
    }
  }

  lemma {:induction false} OrBitwise(a: nat, b: nat, k: nat)
    ensures Bit(BitOr(a, b), k) <==> Bit(a, k) || Bit(b, k)
    decreases k
  {
    OrBits(a, b);
    if k > 0 {
      OrBitwise(a / 2, b / 2, k - 1);
    }
  }

  /** The bits tell numbers apart. */
  lemma {:induction false} BitsTell(m: nat, n: nat)
    requires forall k: nat :: Bit(m, k) <==> Bit(n, k)
    ensures m == n
    decreases m + n
  {
    assert Bit(m, 0) <==> Bit(n, 0);
    if m + n > 0 {
      forall k: nat ensures Bit(m / 2, k) <==> Bit(n / 2, k) {
        assert Bit(m, k + 1) <==> Bit(n, k + 1);
      }
      BitsTell(m / 2, n / 2);
    }
  }

  /** Low bits that are zero stay out of the way. */
  lemma AndDouble(a: nat, b: nat)
    ensures BitAnd(2 * a, 2 * b) == 2 * BitAnd(a, b)
  {
    if a != 0 && b != 0 {
      AndBits(2 * a, 2 * b);
      SameBits(BitAnd(2 * a, 2 * b), 2 * BitAnd(a, b));
    }
  }

  /** k one bits. */
  function Ones(k: nat): nat {
    if k == 0 then 0 else 2 * Ones(k - 1) + 1
  }

  /** Masking with k one bits keeps a number that has no more. */
  lemma {:induction false} AndOnes(b: nat, k: nat)
    requires b <= Ones(k)
    ensures BitAnd(b, Ones(k)) == b
  {
    if b != 0 {
      AndOnes(b / 2, k - 1);
    }
  }

  function Pow256(k: nat): (r: nat)
    ensures r > 0
  {
    if k == 0 then 1 else 256 * Pow256(k - 1)
  }

  /** The number a byte string denotes, most significant byte first. */
  function Value(s: seq<byte>): nat {
    if s == [] then 0 else 256 * Value(s[..|s| - 1]) + s[|s| - 1]
  }

  /** The last `width` base-256 digits of n, most significant first. */
  function Digits(n: nat, width: nat): (s: seq<byte>)
    ensures |s| == width
  {
    if width == 0 then [] else Digits(n / 256, width - 1) + [n % 256]
  }

  /** The octet `(n >> 8k) & 0xff`. */
  function Octet(n: nat, k: nat): byte {
    n / Pow256(k) % 256
  }

  /** Shifting and masking picks out the base-256 digits. */
  lemma {:induction false} DigitIsOctet(n: nat, width: nat, k: nat)
    requires k < width
    ensures Digits(n, width)[width - 1 - k] == Octet(n, k)
  {
    if k > 0 {
      DigitIsOctet(n / 256, width - 1, k - 1);
      DivScale(n, Pow256(k - 1));
    }
  }

  lemma {:induction false} ValueBound(s: seq<byte>)
    ensures Value(s) < Pow256(|s|)
  {
    if s != [] {
      ValueBound(s[..|s| - 1]);
    }
  }

  lemma {:induction false} ValueOfDigits(n: nat, width: nat)
    ensures Value(Digits(n, width)) == n % Pow256(width)
  {
    if width == 0 {
    } else {
      var front := Digits(n / 256, width - 1);
      assert Digits(n, width)[..width - 1] == front;
      ValueOfDigits(n / 256, width - 1);
      ModScale(n, Pow256(width - 1));
    }
  }

  lemma DivScale(n: nat, m: nat)
    requires m > 0
    ensures n / (256 * m) == n / 256 / m
  {
    var q, r := n / 256 / m, n / 256 % m;
    assert n == (256 * m) * q + (256 * r + n % 256) by {
      assert n / 256 == q * m + r;
      assert 256 * (q * m + r) == (256 * m) * q + 256 * r;
    }
    Division.DivideUnique(n, 256 * m, q, 256 * r + n % 256);
  }

  /** Taking a remainder by 256 * m digit by digit. */
  lemma ModScale(n: nat, m: nat)
    requires m > 0
    ensures n % (256 * m) == 256 * (n / 256 % m) + n % 256
  {
    var q, r := n / 256 / m, n / 256 % m;
    assert n / 256 == q * m + r;
    assert n == 256 * (n / 256) + n % 256;
    assert n == (256 * m) * q + (256 * r + n % 256) by {
      assert 256 * (q * m + r) == (256 * m) * q + 256 * r;
    }
    Division.DivideUnique(n, 256 * m, q, 256 * r + n % 256);
  }
}
