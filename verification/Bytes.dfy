/**
 Bytes, little-endian integers and the optional value shared by every component.
 Widths are explicit: an encoding of width `w` keeps the value modulo `256^w`, exactly
 as an `as u32` cast followed by `to_le_bytes` does.
 */
module Bytes {

  type Byte = b: nat | b < 256

  datatype Option<+T> = None | Some(value: T)

  function OrElse(r: Option<nat>, default: nat): nat { if r.Some? then r.value else default }

  const U32_LIMIT: nat := 0x1_0000_0000
  const U64_LIMIT: nat := 0x1_0000_0000_0000_0000

  /** The number of values a `w`-byte integer can hold. */
  function Capacity(w: nat): (p: nat)
    ensures p > 0
  {
    if w == 0 then 1 else 256 * Capacity(w - 1)
  }

  function LeBytes(n: nat, w: nat): (bs: seq<Byte>)
    ensures |bs| == w
    decreases n, w
  {
    if w == 0 then [] else [n % 256] + LeBytes(n / 256, w - 1)
  }

  function LeNat(bs: seq<Byte>): nat {
    if bs == [] then 0 else bs[0] + 256 * LeNat(bs[1..])
  }

  lemma Capacities()
    ensures Capacity(1) == 0x100
    ensures Capacity(2) == 0x1_0000
    ensures Capacity(4) == U32_LIMIT
    ensures Capacity(8) == U64_LIMIT
  {
  }

  /** Reading back an integer that fits its width returns it. */
  lemma {:induction false} LeRoundTrip(n: nat, w: nat)
    requires n < Capacity(w)
    ensures LeNat(LeBytes(n, w)) == n
  {
    if w == 0 {
    } else {
      LeRoundTrip(n / 256, w - 1);
      assert LeBytes(n, w)[1..] == LeBytes(n / 256, w - 1);
    }
  }

  lemma LowByte(b: Byte, n: nat)
    ensures (b + 256 * n) % 256 == b && (b + 256 * n) / 256 == n
  {
  }

  /** Every byte string is the encoding of the integer it reads as. */
  lemma {:induction false} LeBytesOfLeNat(bs: seq<Byte>)
    ensures LeNat(bs) < Capacity(|bs|)
    ensures LeBytes(LeNat(bs), |bs|) == bs
  {
    if bs == [] {
    } else {
      LeBytesOfLeNat(bs[1..]);
      LowByte(bs[0], LeNat(bs[1..]));
      assert bs == [bs[0]] + bs[1..];
    }
  }

  lemma {:induction false} SubsetSize<T>(a: set<T>, b: set<T>)
    requires a <= b
    ensures |a| <= |b|
  {
    if a == {} {
    } else {
      var x :| x in a;
      SubsetSize(a - {x}, b - {x});
    }
  }

  lemma ConcatAssoc<T>(a: seq<T>, b: seq<T>, c: seq<T>)
    ensures (a + b) + c == a + (b + c)
  {
  }

  /** The least significant byte comes first. */
  lemma {:induction false} LeBytesAt(n: nat, w: nat, i: nat)
    requires i < w
    ensures LeBytes(n, w)[i] == n / Capacity(i) % 256
    decreases w
  {
    if i == 0 {
      assert n / 1 == n;
    } else {
      LeBytesAt(n / 256, w - 1, i - 1);
      DivDiv(n, Capacity(i - 1));
    }
  }

  lemma DivDiv(n: nat, c: nat)
    requires c > 0
    ensures n / 256 / c == n / (256 * c)
  {
    var q := n / (256 * c);
    var r := n - 256 * c * q;
    assert n == 256 * (c * q) + r;
    assert n / 256 == c * q + r / 256;
    assert r < 256 * c && r / 256 < c;
    QuotientIs(n / 256, c, q, r / 256);
  }

  lemma QuotientIs(n: nat, c: nat, q: nat, r: nat)
    requires c > 0 && n == c * q + r && r < c
    ensures n / c == q
  {
    if n / c < q { Grows(c, n / c + 1, q); }
    if n / c > q { Grows(c, q + 1, n / c); }
  }

  lemma Grows(c: nat, x: nat, y: nat)
    requires x <= y
    ensures c * x <= c * y
  {
  }
}
