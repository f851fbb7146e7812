/** Byte-level vocabulary shared by the codecs: bytes, Go's fixed-width integers
    and the 4-byte big-endian length prefix written by `binary.Write`. */
module Bytes {

  /** An octet, as in Go's `byte`. */
  type Byte = b: int | 0 <= b < 256

  /** Go's `uint8`, the type of a message kind; the same values as `byte`. */
  type Uint8 = Byte

  const Two32: int := 0x1_0000_0000

  /** Go's `int64`. */
  type Int64 = x: int | -0x8000_0000_0000_0000 <= x < 0x8000_0000_0000_0000

  /** The first `n` elements of `s`, or all of `s` when it is shorter. */
  function Take<T>(s: seq<T>, n: nat): (r: seq<T>)
    ensures |r| == if n < |s| then n else |s|
    ensures r == s[..|r|]
  {
    if n < |s| then s[..n] else s
  }

  lemma TakeAppend<T>(a: seq<T>, b: seq<T>, n: nat)
    requires |a| <= n
    ensures Take(a + b, n) == a + Take(b, n - |a|)
  {
    if n < |a + b| {
      assert (a + b)[..n] == a + b[..n - |a|];
    }
  }

  /** Writing `b` after a prefix `a` that fit, into what is left of `n`. */
  lemma TakeAfter<T>(out: seq<T>, a: seq<T>, b: seq<T>, n: nat)
    requires |a| <= n
    ensures (out + a) + Take(b, n - |a|) == out + Take(a + b, n)
  {
    TakeAppend(a, b, n);
    assert (out + a) + Take(b, n - |a|) == out + (a + Take(b, n - |a|));
  }

  /** The concatenation of a sequence of byte spans, first to last. */
  function Flatten<T>(parts: seq<seq<T>>): (r: seq<T>)
    decreases |parts|
  {
    if parts == [] then [] else parts[0] + Flatten(parts[1..])
  }

  lemma {:induction false} FlattenAppend<T>(a: seq<seq<T>>, b: seq<seq<T>>)
    ensures Flatten(a + b) == Flatten(a) + Flatten(b)
    decreases |a|
  {
    if a == [] {
      assert a + b == b;
    } else {
      assert (a + b)[1..] == a[1..] + b;
      FlattenAppend(a[1..], b);
    }
  }

  lemma FlattenSnoc<T>(a: seq<seq<T>>, x: seq<T>)
    ensures Flatten(a + [x]) == Flatten(a) + x
  {
    FlattenAppend(a, [x]);
    assert Flatten([x]) == x + Flatten([x][1..]);
  }

  /** `binary.Write(w, binary.BigEndian, uint32(n))`: most significant byte first. */
  function BE32(n: nat): (b: seq<Byte>)
    requires n < Two32
    ensures |b| == 4
  {
    [n / 0x100_0000, (n / 0x1_0000) % 256, (n / 0x100) % 256, n % 256]
  }

  /** `binary.Read(r, binary.BigEndian, &length)` on four bytes. */
  function FromBE32(b: seq<Byte>): (n: nat)
    requires |b| == 4
    ensures n < Two32
  {
    (b[0] as int) * 0x100_0000 + (b[1] as int) * 0x1_0000 + (b[2] as int) * 0x100 + b[3] as int
  }

  /** Reading back an encoded length gives the length. */
  lemma BE32RoundTrip(n: nat)
    requires n < Two32
    ensures FromBE32(BE32(n)) == n
  {
    var a, r := n / 0x100_0000, n % 0x100_0000;
    var b, r2 := r / 0x1_0000, r % 0x1_0000;
    var c, d := r2 / 0x100, r2 % 0x100;
    assert n == a * 0x100_0000 + b * 0x1_0000 + c * 0x100 + d;
    DivModOf(n, a * 0x100 + b, r2, 0x1_0000);
    DivModOf(a * 0x100 + b, a, b, 256);
    DivModOf(n, a * 0x1_0000 + b * 0x100 + c, d, 0x100);
    DivModOf(a * 0x1_0000 + b * 0x100 + c, a * 0x100 + b, c, 256);
    assert BE32(n) == [a, b, c, d];
  }

  /** Every four bytes are the encoding of exactly one length. */
  lemma FromBE32RoundTrip(b: seq<Byte>)
    requires |b| == 4
    ensures BE32(FromBE32(b)) == b
  {
    var n := FromBE32(b);
    var b0, b1, b2, b3 := b[0] as int, b[1] as int, b[2] as int, b[3] as int;
    DivModOf(n, b0, b1 * 0x1_0000 + b2 * 0x100 + b3, 0x100_0000);
    DivModOf(n, b0 * 0x100 + b1, b2 * 0x100 + b3, 0x1_0000);
    DivModOf(n / 0x1_0000, b0, b1, 256);
    DivModOf(n, b0 * 0x1_0000 + b1 * 0x100 + b2, b3, 0x100);
    DivModOf(n / 0x100, b0 * 0x100 + b1, b2, 256);
    DivModOf(n, b0 * 0x1_0000 + b1 * 0x100 + b2, b3, 256);
  }

  /** Quotient and remainder are determined by any decomposition `x == q * d + r`. */
  lemma DivModOf(x: int, q: int, r: int, d: int)
    requires d > 0 && 0 <= r < d && x == q * d + r
    ensures x / d == q && x % d == r
  {
    var q', r' := x / d, x % d;
    if q' > q {
      Distribute(q', q, d);
      AtLeastOnce(q' - q, d);
    } else if q' < q {
      Distribute(q, q', d);
      AtLeastOnce(q - q', d);
    }
  }

  lemma Distribute(a: int, b: int, d: int)
    ensures (a - b) * d == a * d - b * d
  {
  }

  lemma {:induction false} AtLeastOnce(k: int, d: int)
    requires k >= 1 && d > 0
    ensures k * d >= d
    decreases k
  {
    if k > 1 {
      AtLeastOnce(k - 1, d);
      Distribute(k, 1, d);
    }
  }
}
