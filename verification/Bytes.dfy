/** Bytes, optional values and the four-byte length header that precedes every payload. */
module Bytes {

  type byte = x: int | 0 <= x < 256

  datatype Option<+T> = None | Some(value: T)

  /** The bytes of a 32-bit length, least significant first. Writer and reader copy the length
      with the same host byte order, so only the round trip matters. */
  function Encode32(n: nat): (b: seq<byte>)
    ensures |b| == 4
  {
    [n % 256, n / 0x100 % 256, n / 0x1_0000 % 256, n / 0x100_0000 % 256]
  }

  function Decode32(b: seq<byte>): (n: nat)
    requires |b| == 4
    ensures n < 0x1_0000_0000
  {
    var b0: int, b1: int, b2: int, b3: int := b[0], b[1], b[2], b[3];
    b0 + 0x100 * b1 + 0x1_0000 * b2 + 0x100_0000 * b3
  }

  /** A length below 2^32 survives the trip through the header. */
  lemma HeaderRoundTrip(n: nat)
    requires n < 0x1_0000_0000
    ensures Decode32(Encode32(n)) == n
  {
    var a, b, c := n / 0x100, n / 0x1_0000, n / 0x100_0000;
    assert n == 0x100 * a + n % 256;
    assert b == a / 0x100 && a == 0x100 * b + a % 256;
    assert c == b / 0x100 && b == 0x100 * c + b % 256;
    assert c % 256 == c;
  }

  function Pow2(n: nat): nat {
    if n == 0 then 1 else 2 * Pow2(n - 1)
  }

  lemma Pow2Of8More(n: nat)
    ensures Pow2(n + 8) == 0x100 * Pow2(n)
  {
    assert Pow2(n + 8) == 2 * Pow2(n + 7) && Pow2(n + 7) == 2 * Pow2(n + 6) && Pow2(n + 6) == 2 * Pow2(n + 5);
    assert Pow2(n + 5) == 2 * Pow2(n + 4) && Pow2(n + 4) == 2 * Pow2(n + 3) && Pow2(n + 3) == 2 * Pow2(n + 2);
    assert Pow2(n + 2) == 2 * Pow2(n + 1) && Pow2(n + 1) == 2 * Pow2(n);
  }

  /** Is bit `k` of a number set, counted from the least significant one? */
  predicate Bit(n: nat, k: nat)
    decreases k
  {
    if k == 0 then n % 2 == 1 else Bit(n / 2, k - 1)
  }

  lemma {:induction false} BitOfZero(k: nat)
    ensures !Bit(0, k)
    decreases k
  {
    if k > 0 {
      BitOfZero(k - 1);
    }
  }

  lemma Halves(a: nat, b: nat, p: nat)
    ensures (a * (2 * p) + b) % 2 == b % 2 && (a * (2 * p) + b) / 2 == a * p + b / 2
  {
    assert a * (2 * p) == 2 * (a * p);
  }

  /** The bits of two parts of a number, of which the lower one has `m` bits. */
  lemma {:induction false} BitsOfParts(a: nat, b: nat, m: nat, k: nat)
    requires b < Pow2(m)
    ensures Bit(a * Pow2(m) + b, k) <==> if k < m then Bit(b, k) else Bit(a, k - m)
    decreases m
  {
    if m > 0 {
      Halves(a, b, Pow2(m - 1));
      if k > 0 {
        BitsOfParts(a, b / 2, m - 1, k - 1);
      }
    }
  }
}
