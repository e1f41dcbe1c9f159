/** Machine bytes and the fixed-width words the C sources compute with. */
module Bytes {

  type byte = x: int | 0 <= x < 0x100

  const U16: int := 0x1_0000
  const U32: int := 0x1_0000_0000
  const U64: int := 0x1_0000_0000_0000_0000

  /** Conversion of a wider unsigned value to a byte: LZO_BYTE, (u_char). */
  function Low8(v: nat): byte {
    v % 0x100
  }

  function Zeros(n: nat): (z: seq<byte>)
    ensures |z| == n
  {
    seq(n, _ => 0)
  }

  /** Little-endian value of the bytes of s. */
  function LE(s: seq<byte>): (v: nat)
  {
    if s == [] then 0 else s[0] + 0x100 * LE(s[1..])
  }

  /** Two little-endian words of the same width are equal exactly when their bytes are. */
  lemma {:induction false} LEInjective(s: seq<byte>, t: seq<byte>)
    requires |s| == |t|
    ensures LE(s) == LE(t) <==> s == t
  {
    if s != [] {
      LEInjective(s[1..], t[1..]);
      if LE(s) == LE(t) {
        assert s[0] == t[0] && LE(s[1..]) == LE(t[1..]);
        assert s == [s[0]] + s[1..] && t == [t[0]] + t[1..];
      }
    }
  }

  /** Differences of 32-bit counters do not see the wrap. */
  lemma ModDiff(a: int, b: int)
    ensures (a % U32 - b % U32) % U32 == (a - b) % U32
  {
    var q := a / U32 - b / U32;
    assert a - b == (a % U32 - b % U32) + U32 * q;
  }

  /** 64-bit sums may be reduced at any point. */
  lemma Wrap64(a: int, b: int)
    ensures (a % U64 + b) % U64 == (a + b) % U64
  {
    var q := a / U64;
    assert a + b == (a % U64 + b) + U64 * q;
  }

  lemma Joins(a: seq<byte>, b: seq<byte>, c: seq<byte>)
    ensures a + b + c == a + (b + c)
  {}

  // ---------------------------------------------------------------- copies into a buffer

  /** memcpy(data + at, bytes, |bytes|) */
  function Store(data: seq<byte>, at: nat, bytes: seq<byte>): seq<byte>
    requires at + |bytes| <= |data|
  {
    data[..at] + bytes + data[at + |bytes|..]
  }

  /** The part stands at this place. */
  predicate Has<T(==)>(data: seq<T>, at: nat, part: seq<T>) {
    at + |part| <= |data| && data[at..at + |part|] == part
  }

  lemma HasConcat<T>(data: seq<T>, at: nat, a: seq<T>, b: seq<T>)
    requires Has(data, at, a + b)
    ensures Has(data, at, a) && Has(data, at + |a|, b)
  {
    var w := data[at..at + |a + b|];
    assert data[at..at + |a|] == w[..|a|] == a;
    assert data[at + |a|..at + |a| + |b|] == w[|a|..] == b;
  }

  lemma HasAll<T>(data: seq<T>)
    ensures Has(data, 0, data)
  {}

  lemma HasAt<T>(data: seq<T>, at: nat, part: seq<T>, i: nat)
    requires Has(data, at, part) && i < |part|
    ensures data[at + i] == part[i]
  {
    assert data[at + i] == data[at..at + |part|][i];
  }

  lemma StoreHas(data: seq<byte>, at: nat, bytes: seq<byte>)
    requires at + |bytes| <= |data|
    ensures |Store(data, at, bytes)| == |data| && Has(Store(data, at, bytes), at, bytes)
  {}

  /** Storing bytes leaves those before and behind them. */
  lemma StoreKeeps(data: seq<byte>, at: nat, bytes: seq<byte>, a: nat, other: seq<byte>)
    requires at + |bytes| <= |data| && Has(data, a, other) && (a + |other| <= at || at + |bytes| <= a)
    ensures Has(Store(data, at, bytes), a, other)
  {
    assert Store(data, at, bytes)[a..a + |other|] == data[a..a + |other|];
  }
}
