/**
 `lzo_adler32`: the Adler-32 checksum of section 2.2 of RFC 1950, computed with the modulus
 deferred over runs of 5552 bytes.
 */
module Adler {
  import opened Bytes

  const BASE: nat := 65521
  const NMAX: nat := 5552

  /** A 32-bit unsigned word; every sum the code forms must be one. */
  type word = x: int | 0 <= x < 0x1_0000_0000

  /** The two sums of the checksum, reduced after every byte as the RFC defines them. */
  datatype Sums = Sums(s1: nat, s2: nat)

  function Add(s: Sums, b: byte): Sums {
    var s1 := (s.s1 + b) % BASE;
    Sums(s1, (s.s2 + s1) % BASE)
  }

  function Update(s: Sums, buf: seq<byte>): (r: Sums)
    decreases |buf|
  {
    if buf == [] then s else Add(Update(s, buf[..|buf| - 1]), buf[|buf| - 1])
  }

  /** The 32-bit checksum value: s2 in the upper half, s1 in the lower. */
  function Pack(s: Sums): nat {
    s.s2 * 0x1_0000 + s.s1
  }

  function Unpack(adler: nat): Sums {
    Sums(adler % 0x1_0000, adler / 0x1_0000 % 0x1_0000)
  }

  /** What `lzo_adler32(adler, buf, len)` means; an empty buffer leaves the seed as it is. */
  function Checksum(adler: nat, buf: seq<byte>): nat {
    Pack(Update(Unpack(adler), buf))
  }

  // ---------------------------------------------------------------- deferred sums

  function Sum(buf: seq<byte>): (r: nat)
    ensures r <= 255 * |buf|
    decreases |buf|
  {
    if buf == [] then 0 else Sum(buf[..|buf| - 1]) + buf[|buf| - 1]
  }

  /** Sum of the partial sums of buf, for s1 starting at 0. */
  function Sum2(buf: seq<byte>): nat
    decreases |buf|
  {
    if buf == [] then 0 else Sum2(buf[..|buf| - 1]) + Sum(buf)
  }

  lemma {:induction false} Sum2Bound(buf: seq<byte>)
    ensures 2 * Sum2(buf) <= 255 * (|buf| * (|buf| + 1))
    decreases |buf|
  {
    if buf != [] {
      var n := |buf|;
      Sum2Bound(buf[..n - 1]);
      assert (n - 1) * n + 2 * n == n * (n + 1);
    }
  }

  lemma MulMono(x: nat, y: nat, c: nat)
    requires x <= y
    ensures x * c <= y * c
  {
  }

  /** In a run of at most NMAX bytes no sum leaves 32 bits, whatever 16-bit values it starts from. */
  lemma NoOverflow(a: nat, b: nat, buf: seq<byte>)
    requires a < 0x1_0000 && b < 0x1_0000 && |buf| <= NMAX
    ensures a + Sum(buf) < U32 && b + |buf| * a + Sum2(buf) < U32
  {
    hide Sum2;
    var n := |buf|;
    Sum2Bound(buf);
    MulMono(n, NMAX, n + 1);
    MulMono(n + 1, NMAX + 1, NMAX);
    MulMono(n, NMAX, a);
    MulMono(a, 0xffff, NMAX);
    assert NMAX * (n + 1) == (n + 1) * NMAX && NMAX * a == a * NMAX;
    BoundArithmetic(a, b, Sum2(buf), n * (n + 1), n * a);
  }

  /** The 32-bit limit that the run length 5552 was chosen for. */
  lemma BoundArithmetic(a: nat, b: nat, sum2: nat, tri: nat, na: nat)
    requires b < 0x1_0000 && 2 * sum2 <= 255 * tri && tri <= 5553 * 5552 && na <= 0xffff * 5552
    ensures b + na + sum2 < 0x1_0000_0000
  {
  }

  lemma ModAdd(x: nat, y: nat)
    ensures (x % BASE + y) % BASE == (x + y) % BASE
  {
    var q := x / BASE;
    assert x + y == q * BASE + (x % BASE + y);
    ModShift(x % BASE + y, q);
  }

  lemma {:induction false} ModShift(z: nat, q: nat)
    ensures (z + q * BASE) % BASE == z % BASE
    decreases q
  {
    if q > 0 {
      ModShift(z, q - 1);
      assert z + q * BASE == (z + (q - 1) * BASE) + BASE;
    }
  }

  /** One byte, seen through residues. */
  lemma AddResidues(s: Sums, a: nat, b: nat, x: byte)
    requires a % BASE == s.s1 % BASE && b % BASE == s.s2 % BASE
    ensures Add(s, x) == Sums((a + x) % BASE, (b + (a + x)) % BASE)
  {
    ModAdd(s.s1, x);
    ModAdd(a, x);
    ModAdd(s.s2, (a + x) % BASE);
    ModAdd(b, (a + x) % BASE);
    ModAdd(a + x, b);
  }

  /** Reducing once behind a run gives the same residues as reducing after every byte. */
  lemma {:induction false} DeferredModulus(s: Sums, a: nat, b: nat, buf: seq<byte>)
    requires a % BASE == s.s1 % BASE && b % BASE == s.s2 % BASE && buf != []
    ensures Update(s, buf) == Sums((a + Sum(buf)) % BASE, (b + |buf| * a + Sum2(buf)) % BASE)
    decreases |buf|
  {
    hide Add;
    var n := |buf|;
    var init, last := buf[..n - 1], buf[n - 1];
    var u := Update(s, init);
    var na := (n - 1) * a;
    var a1, b1 := a + Sum(init), b + na + Sum2(init);
    if init != [] {
      DeferredModulus(s, a, b, init);
      ModAdd(a1, 0);
      ModAdd(b1, 0);
    }
    AddResidues(u, a1, b1, last);
    Distribute(n, a);
    assert Sum(buf) == Sum(init) + last && Sum2(buf) == Sum2(init) + Sum(buf);
    assert b1 + (a1 + last) == b + n * a + Sum2(buf);
  }

  lemma Distribute(n: nat, a: nat)
    requires 0 < n
    ensures n * a == (n - 1) * a + a
  {
  }

  // ---------------------------------------------------------------- the code

  /** The unrolled and the single-byte loops over a run of `k` bytes from `p`. */
  method AddRun(buf: seq<byte>, p: nat, k: nat, a: word, b: word) returns (s1: word, s2: word)
    requires p + k <= |buf| && k <= NMAX && a < 0x1_0000 && b < 0x1_0000
    ensures s1 == a + Sum(buf[p..p + k]) && s2 == b + k * a + Sum2(buf[p..p + k])
  {
    s1, s2 := a, b;
    var i := 0;
    assert buf[p..p + 0] == [];
    while i < k
      invariant i <= k && s1 == a + Sum(buf[p..p + i]) && s2 == b + i * a + Sum2(buf[p..p + i])
    {
      var run := buf[p..p + i + 1];
      assert run[..i] == buf[p..p + i] && run[i] == buf[p + i];
      NoOverflow(a, b, run);
      assert (i + 1) * a == i * a + a;
      s1 := s1 + buf[p + i];
      s2 := s2 + s1;
      i := i + 1;
    }
  }

  /** `lzo_adler32`; a null buffer gives 1. All intermediate values fit 32 bits by their types. */
  method Adler32(adler: word, buf: seq<byte>, isNull: bool) returns (r: word)
    ensures r == if isNull then 1 else Checksum(adler, buf)
  {
    var s1: word := adler % 0x1_0000;
    var s2: word := adler / 0x1_0000 % 0x1_0000;
    if isNull {
      return 1;
    }
    var p := 0;
    ghost var start := Sums(s1, s2);
    assert buf[..0] == [];
    while p < |buf|
      invariant p <= |buf| && s1 < 0x1_0000 && s2 < 0x1_0000
      invariant Update(start, buf[..p]) == Sums(s1, s2)
      decreases |buf| - p
    {
      var k := if |buf| - p < NMAX then |buf| - p else NMAX;
      ghost var a, b := s1, s2;
      s1, s2 := AddRun(buf, p, k, s1, s2);
      ghost var run := buf[p..p + k];
      DeferredModulus(Sums(a, b), a, b, run);
      UpdateConcat(start, buf[..p], run);
      assert buf[..p] + run == buf[..p + k];
      s1 := s1 % BASE;
      s2 := s2 % BASE;
      p := p + k;
    }
    assert buf[..p] == buf;
    r := s2 * 0x1_0000 + s1;
  }

  // ---------------------------------------------------------------- composition

  lemma {:induction false} UpdateConcat(s: Sums, a: seq<byte>, b: seq<byte>)
    ensures Update(s, a + b) == Update(Update(s, a), b)
    decreases |b|
  {
    if b == [] {
      assert a + b == a;
    } else {
      var n := |b| - 1;
      assert (a + b)[..|a + b| - 1] == a + b[..n] && (a + b)[|a + b| - 1] == b[n];
      UpdateConcat(s, a, b[..n]);
    }
  }

  lemma {:induction false} UpdateReduced(s: Sums, buf: seq<byte>)
    requires s.s1 < 0x1_0000 && s.s2 < 0x1_0000
    ensures Update(s, buf).s1 < 0x1_0000 && Update(s, buf).s2 < 0x1_0000
    decreases |buf|
  {
    if buf != [] {
      UpdateReduced(s, buf[..|buf| - 1]);
    }
  }

  lemma UnpackPack(s: Sums)
    requires s.s1 < 0x1_0000 && s.s2 < 0x1_0000
    ensures Unpack(Pack(s)) == s
  {
  }

  /** A checksum can be continued piece by piece, from any seed. */
  lemma Compose(adler: nat, a: seq<byte>, b: seq<byte>)
    ensures Checksum(Checksum(adler, a), b) == Checksum(adler, a + b)
  {
    UpdateConcat(Unpack(adler), a, b);
    UpdateReduced(Unpack(adler), a);
    UnpackPack(Update(Unpack(adler), a));
  }

  /** From the seed 1 the checksum is the closed form of the RFC: s1 = 1 + sum of the bytes, s2 = sum of all s1. */
  lemma ClosedForm(buf: seq<byte>)
    ensures Checksum(1, buf) == (|buf| + Sum2(buf)) % BASE * 0x1_0000 + (1 + Sum(buf)) % BASE
  {
    hide Update, Sum, Sum2, Unpack;
    SeedOne(buf);
    if buf != [] {
      DeferredOne(buf);
    }
  }

  lemma DeferredOne(buf: seq<byte>)
    requires buf != []
    ensures Update(Sums(1, 0), buf) == Sums((1 + Sum(buf)) % BASE, (|buf| + Sum2(buf)) % BASE)
  {
    hide *;
    DeferredModulus(Sums(1, 0), 1, 0, buf);
  }

  lemma SeedOne(buf: seq<byte>)
    ensures Unpack(1) == Sums(1, 0)
    ensures buf == [] ==> Update(Sums(1, 0), buf) == Sums(1, 0) && Sum(buf) == 0 && Sum2(buf) == 0
  {}
}
