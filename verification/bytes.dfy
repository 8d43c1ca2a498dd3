/** Little-endian byte layouts used on the wire by both sides of the link. */
module Bytes {

  /** The two bytes of a 16-bit value, least significant first. */
  function Le16(v: bv16): (r: seq<bv8>)
    ensures |r| == 2
  {
    [(v & 0xFF) as bv8, (v >> 8) as bv8]
  }

  /** The 16-bit value stored least significant byte first at `lo`, `hi`. */
  function ReadLe16(lo: bv8, hi: bv8): bv16 {
    ((hi as bv16) << 8) | (lo as bv16)
  }

  /** Reading back the two bytes of `Le16` gives the value again. */
  lemma Le16RoundTrip(v: bv16)
    ensures ReadLe16(Le16(v)[0], Le16(v)[1]) == v
  {
  }

  /** The `count` low-order bytes of `n`, least significant first. */
  function LeBytes(n: nat, count: nat): (r: seq<bv8>)
    ensures |r| == count
  {
    if count == 0 then [] else [(n % 256) as bv8] + LeBytes(n / 256, count - 1)
  }

  /** The number stored least significant byte first in `s`. */
  function ReadLe(s: seq<bv8>): nat {
    if |s| == 0 then 0 else s[0] as int + 256 * ReadLe(s[1..])
  }

  function Pow256(count: nat): (p: nat)
    ensures p > 0
  {
    if count == 0 then 1 else 256 * Pow256(count - 1)
  }

  lemma MulAtLeast(a: int, m: int)
    requires a >= 1 && m > 0
    ensures a * m >= m
  {
    assert a * m == (a - 1) * m + m;
  }

  lemma DivModUnique(n: int, m: int, q: int, r: int)
    requires m > 0 && 0 <= r < m && n == q * m + r
    ensures n / m == q && n % m == r
  {
    var q0, r0 := n / m, n % m;
    assert n == q0 * m + r0;
    if q0 > q {
      assert (q0 - q) * m == r - r0;
      MulAtLeast(q0 - q, m);
    } else if q0 < q {
      assert (q - q0) * m == r0 - r;
      MulAtLeast(q - q0, m);
    }
  }

  lemma ModSplit(n: nat, p: nat)
    requires p > 0
    ensures n % (256 * p) == n % 256 + 256 * ((n / 256) % p)
  {
    var q, r := n / 256, n % 256;
    assert n == 256 * q + r;
    assert q == (q / p) * p + q % p;
    assert n == (q / p) * (256 * p) + (256 * (q % p) + r);
    DivModUnique(n, 256 * p, q / p, 256 * (q % p) + r);
  }

  lemma ByteIncrement(b: bv8)
    requires b as int < 255
    ensures (b + 1) as int == b as int + 1
  {
  }

  lemma ByteCastBack(b: bv8)
    ensures (b as int) as bv8 == b
  {
  }

  /** Casting a value below 256 to a byte loses nothing; counted up from
      0, since each step adds one to both sides. */
  lemma {:induction false} ByteCast(x: nat)
    requires x < 256
    ensures (x as bv8) as int == x
  {
    if x > 0 {
      ByteCast(x - 1);
      var b := (x - 1) as bv8;
      ByteIncrement(b);
      ByteCastBack(b + 1);
    }
  }

  lemma ReadLeCons(b: bv8, rest: seq<bv8>)
    ensures ReadLe([b] + rest) == b as int + 256 * ReadLe(rest)
  {
    assert ([b] + rest)[1..] == rest;
  }

  /** Reading back `count` little-endian bytes gives the value modulo
      256^count: a wider value is truncated, never garbled. */
  lemma {:induction false} LeBytesRoundTrip(n: nat, count: nat)
    ensures ReadLe(LeBytes(n, count)) == n % Pow256(count)
  {
    if count > 0 {
      var p := Pow256(count - 1);
      var rest := LeBytes(n / 256, count - 1);
      ByteCast(n % 256);
      ReadLeCons((n % 256) as bv8, rest);
      LeBytesRoundTrip(n / 256, count - 1);
      assert ReadLe(rest) == (n / 256) % p;
      ModSplit(n, p);
    }
  }

  /** The four bytes a 32-bit little-endian size field holds for `n`. */
  function Le32(n: nat): (r: seq<bv8>)
    ensures |r| == 4
    ensures ReadLe(r) == n % 0x1_0000_0000
  {
    LeBytesRoundTrip(n, 4);
    LeBytes(n, 4)
  }

  /** A 32-bit size field read back as a number. */
  function ReadLe32(s: seq<bv8>): (n: nat)
    requires |s| == 4
    ensures n < 0x1_0000_0000
  {
    ReadLeBound(s);
    ReadLe(s)
  }

  lemma {:induction false} ReadLeBound(s: seq<bv8>)
    ensures ReadLe(s) < Pow256(|s|)
  {
    if |s| > 0 {
      ReadLeBound(s[1..]);
    }
  }
}
