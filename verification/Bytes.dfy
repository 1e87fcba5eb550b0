/** Bytes of shared memory, and the fixed-width encoding of a machine word in them. */
module Bytes {

  newtype byte = x: int | 0 <= x < 256

  /** A `usize` takes eight bytes. */
  const USIZE_BYTES: nat := 8

  /** The number of values a `usize` can hold. */
  const USIZE_LIMIT: nat := 0x1_0000_0000_0000_0000

  function Power256(width: nat): nat {
    if width == 0 then 1 else 256 * Power256(width - 1)
  }

  /** The low `width` bytes of `n`, least significant byte first. */
  function Encode(n: nat, width: nat): (s: seq<byte>)
    ensures |s| == width
  {
    if width == 0 then [] else [(n % 256) as byte] + Encode(n / 256, width - 1)
  }

  function Decode(s: seq<byte>): nat {
    if s == [] then 0 else s[0] as nat + 256 * Decode(s[1..])
  }

  lemma {:induction false} EncodeRoundTrip(n: nat, width: nat)
    requires n < Power256(width)
    ensures Decode(Encode(n, width)) == n
  {
    if width == 0 {
    } else {
      EncodeRoundTrip(n / 256, width - 1);
      assert Encode(n, width)[1..] == Encode(n / 256, width - 1);
    }
  }

  /** Byte `k` is digit `k` to the base 256. */
  lemma {:induction false} EncodeDigit(n: nat, width: nat, k: nat)
    requires k < width
    ensures Power256(k) > 0 && Encode(n, width)[k] as nat == n / Power256(k) % 256
  {
    if k > 0 {
      EncodeDigit(n / 256, width - 1, k - 1);
      DivideTwice(n, Power256(k - 1));
    }
  }

  lemma DivideTwice(n: nat, d: nat)
    requires d > 0
    ensures n / 256 / d == n / (256 * d)
  {
    var q, r := n / (256 * d), n % (256 * d);
    assert n == 256 * d * q + r;
    assert n / 256 == d * q + r / 256 by {
      assert n == 256 * (d * q) + r;
    }
    assert 0 <= r / 256 < d;
    QuotientOf(n / 256, d, q, r / 256);
  }

  lemma QuotientOf(n: nat, d: nat, q: nat, r: nat)
    requires d > 0 && n == d * q + r && r < d
    ensures n / d == q
  {
    var e: int := n / d;
    assert d * (q as int - e) == (n % d) as int - r;
    Multiples(d, q as int - e);
  }

  lemma Multiples(d: int, x: int)
    requires d >= 0
    ensures x >= 1 ==> d * x >= d
    ensures x <= -1 ==> d * x <= -d
  {
    if x >= 1 {
      assert d * x == d + d * (x - 1);
    } else if x <= -1 {
      assert d * x == -d - d * (-x - 1);
    }
  }

  function EncodeUsize(n: nat): (s: seq<byte>)
    ensures |s| == USIZE_BYTES
  {
    Encode(n, USIZE_BYTES)
  }

  /** Every `usize` survives being stored and loaded. */
  lemma UsizeRoundTrip(n: nat)
    requires n < USIZE_LIMIT
    ensures Decode(EncodeUsize(n)) == n
  {
    assert Power256(8) == USIZE_LIMIT by {
      assert Power256(4) == 0x1_0000_0000;
      assert Power256(6) == 65536 * Power256(4);
      assert Power256(8) == 65536 * Power256(6);
    }
    EncodeRoundTrip(n, USIZE_BYTES);
  }
}
