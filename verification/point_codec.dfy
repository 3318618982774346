/**
 Public keys on the curve P-256 and their uncompressed octet form (sections 2.3.3 and 2.3.4 of SEC 1): 65
 bytes, built from integers whose own byte form drops leading zeros.
 */
module PointCodec {
  import opened Bytes

  datatype Point = Point(x: nat, y: nat)

  /** The field prime of P-256. */
  const P := 0xffffffff_00000001_00000000_00000000_00000000_ffffffff_ffffffff_ffffffff

  /** The curve's equation, over coordinates below the prime. */
  datatype Curve = Curve(equation: (nat, nat) -> bool)

  predicate OnCurve(e: Curve, p: Point) {
    p.x < P && p.y < P && e.equation(p.x, p.y)
  }

  // ---------------------------------------------------------------- integers as bytes

  function Pow256(k: nat): (p: nat)
    ensures p > 0
  {
    if k == 0 then 1 else 256 * Pow256(k - 1)
  }

  /** Big-endian, without leading zeros. */
  function ToBytes(n: nat): seq<byte> {
    if n == 0 then [] else ToBytes(n / 256) + [(n % 256) as byte]
  }

  /** Big-endian. */
  function FromBytes(bs: seq<byte>): nat {
    if bs == [] then 0
    else
      var n := |bs| - 1;
      256 * FromBytes(bs[..n]) + bs[n] as int
  }

  /** Big-endian, `k` bytes. */
  function Fixed(n: nat, k: nat): (bs: seq<byte>)
    ensures |bs| == k
  {
    if k == 0 then [] else Fixed(n / 256, k - 1) + [(n % 256) as byte]
  }

  function Zeros(k: nat): (bs: seq<byte>)
    ensures |bs| == k && forall i :: 0 <= i < k ==> bs[i] == 0
  {
    seq(k, _ => 0)
  }

  lemma {:induction false} FixedZero(k: nat)
    ensures Fixed(0, k) == Zeros(k)
  {
    if k > 0 {
      FixedZero(k - 1);
      assert Zeros(k - 1) + [0] == Zeros(k);
    }
  }

  /** Padding on the left restores the zeros that the short form dropped. */
  lemma {:induction false} PaddedIsFixed(n: nat, k: nat)
    requires n < Pow256(k)
    ensures |ToBytes(n)| <= k
    ensures Zeros(k - |ToBytes(n)|) + ToBytes(n) == Fixed(n, k)
  {
    if n == 0 {
      FixedZero(k);
      assert Zeros(k) + [] == Zeros(k);
    } else {
      PaddedIsFixed(n / 256, k - 1);
      var short, last := ToBytes(n / 256), [(n % 256) as byte];
      assert Zeros(k - 1 - |short|) + short + last == Zeros(k - 1 - |short|) + (short + last);
    }
  }

  lemma {:induction false} FromFixed(n: nat, k: nat)
    requires n < Pow256(k)
    ensures FromBytes(Fixed(n, k)) == n
  {
    if k > 0 {
      FromFixed(n / 256, k - 1);
      assert Fixed(n, k)[..k - 1] == Fixed(n / 256, k - 1);
    }
  }

  lemma {:induction false} FixedOfFrom(bs: seq<byte>)
    ensures FromBytes(bs) < Pow256(|bs|)
    ensures Fixed(FromBytes(bs), |bs|) == bs
  {
    if bs != [] {
      var before, last := bs[..|bs| - 1], bs[|bs| - 1];
      FixedOfFrom(before);
      var n := FromBytes(bs);
      assert n / 256 == FromBytes(before) && n % 256 == last as int;
      assert before + [last] == bs;
    }
  }

  lemma TimesAssoc(x: nat, y: nat, z: nat)
    ensures x * (y * z) == (x * y) * z
  {
  }

  lemma {:induction false} PowAdd(a: nat, b: nat)
    ensures Pow256(a + b) == Pow256(a) * Pow256(b)
  {
    if a > 0 {
      PowAdd(a - 1, b);
      TimesAssoc(256, Pow256(a - 1), Pow256(b));
    }
  }

  lemma PrimeFits()
    ensures P < Pow256(32)
  {
    assert Pow256(2) == 256 * Pow256(1) == 65536;
    PowAdd(2, 2);
    PowAdd(4, 4);
    PowAdd(8, 8);
    PowAdd(16, 16);
    assert Pow256(4) == 0x1_0000_0000;
    assert Pow256(8) == 0x1_0000_0000_0000_0000;
    assert Pow256(16) == 0x1_0000_0000_0000_0000_0000_0000_0000_0000;
  }

  // ---------------------------------------------------------------- points as bytes

  datatype ParsedPoint = Ok(p: Point) | BadFormat | NotOnCurve

  function ParsePoint(e: Curve, raw: seq<byte>): ParsedPoint {
    if |raw| != 65 || raw[0] != 4 then BadFormat
    else
      var p := Point(FromBytes(raw[1..33]), FromBytes(raw[33..65]));
      if OnCurve(e, p) then Ok(p) else NotOnCurve
  }

  function Marshalled(p: Point): (raw: seq<byte>)
    ensures |raw| == 65
  {
    [4 as byte] + Fixed(p.x, 32) + Fixed(p.y, 32)
  }

  /** Copies the short forms of both coordinates to the ends of their places in a zeroed buffer. */
  method MarshalPoint(p: Point) returns (raw: seq<byte>)
    requires p.x < Pow256(32) && p.y < Pow256(32)
    ensures raw == Marshalled(p)
  {
    var xb, yb := ToBytes(p.x), ToBytes(p.y);
    MarshalledIsPadded(p, xb, yb);
    raw := FillBuffer(xb, yb);
  }

  method FillBuffer(xb: seq<byte>, yb: seq<byte>) returns (raw: seq<byte>)
    requires |xb| <= 32 && |yb| <= 32
    ensures raw == [4 as byte] + (Zeros(32 - |xb|) + xb) + (Zeros(32 - |yb|) + yb)
  {
    var out := new byte[65](_ => 0);
    out[0] := 4;
    ghost var empty := out[..];
    CopyInto(out, 1 + (32 - |xb|), xb);
    CopyInto(out, 33 + (32 - |yb|), yb);
    raw := out[..];
    PartsOfBuffer(empty, xb, yb);
  }

  lemma MarshalledIsPadded(p: Point, xb: seq<byte>, yb: seq<byte>)
    requires p.x < Pow256(32) && p.y < Pow256(32) && xb == ToBytes(p.x) && yb == ToBytes(p.y)
    ensures |xb| <= 32 && |yb| <= 32
    ensures Marshalled(p) == [4 as byte] + (Zeros(32 - |xb|) + xb) + (Zeros(32 - |yb|) + yb)
  {
    PaddedIsFixed(p.x, 32);
    PaddedIsFixed(p.y, 32);
  }

  /** Copying to the ends of the two halves of a buffer that is zero but for its first byte. */
  lemma PartsOfBuffer(empty: seq<byte>, xb: seq<byte>, yb: seq<byte>)
    requires |empty| == 65 && |xb| <= 32 && |yb| <= 32
    requires empty[0] == 4 && forall i :: 1 <= i < 65 ==> empty[i] == 0
    ensures Copied(Copied(empty, 1 + (32 - |xb|), xb), 33 + (32 - |yb|), yb) ==
            [4 as byte] + (Zeros(32 - |xb|) + xb) + (Zeros(32 - |yb|) + yb)
  {
    var half := Copied(empty, 1 + (32 - |xb|), xb);
    assert half[..33] == [4 as byte] + (Zeros(32 - |xb|) + xb);
    assert half[33..65 - |yb|] == Zeros(32 - |yb|);
    var end := 65 - |yb|;
    assert half[..end] == half[..33] + half[33..end];
    assert half[end + |yb|..] == [];
  }

  /** A buffer with `bs` copied over the bytes from `at` on. */
  function Copied(buffer: seq<byte>, at: nat, bs: seq<byte>): (r: seq<byte>)
    requires at + |bs| <= |buffer|
    ensures |r| == |buffer|
  {
    buffer[..at] + bs + buffer[at + |bs|..]
  }

  method CopyInto(out: array<byte>, at: nat, bs: seq<byte>)
    requires at + |bs| <= out.Length
    modifies out
    ensures out[..] == Copied(old(out[..]), at, bs)
  {
    for j := 0 to |bs|
      invariant forall i :: 0 <= i < out.Length ==> out[i] == if at <= i < at + j then bs[i - at] else old(out[i])
    {
      out[at + j] := bs[j];
    }
  }

  lemma PrimeOfCurve()
    ensures P == Pow256(32) - Pow256(28) + Pow256(24) + Pow256(12) - 1
  {
    assert Pow256(2) == 256 * Pow256(1) == 65536;
    PowAdd(2, 2);
    PowAdd(4, 4);
    PowAdd(8, 8);
    PowAdd(8, 4);
    PowAdd(12, 12);
    PowAdd(24, 4);
    PowAdd(28, 4);
  }

  lemma {:induction false} FixedAt(n: nat, k: nat, i: nat)
    requires i < k
    ensures Fixed(n, k)[i] as int == (n / Pow256(k - 1 - i)) % 256
  {
    if i < k - 1 {
      FixedAt(n / 256, k - 1, i);
      DivDiv(n, Pow256(k - 2 - i));
    }
  }

  lemma Multiples(m: int, d: nat)
    ensures m >= 1 ==> d * m >= d
    ensures m <= -1 ==> d * m + d <= 0
  {
  }

  lemma Quotient(n: nat, q: nat, d: nat, r: nat)
    requires n == q * d + r && r < d
    ensures n / d == q
  {
    var k := n / d;
    assert n == d * k + n % d;
    assert d * (q - k) == n % d - r;
    Multiples(q - k, d);
  }

  lemma DivDiv(n: nat, d: nat)
    requires d > 0
    ensures (n / 256) / d == n / (256 * d)
  {
    var q, r, s := (n / 256) / d, (n / 256) % d, n % 256;
    assert n == 256 * (q * d + r) + s;
    TimesAssoc(q, 256, d);
    TimesAssoc(256, q, d);
    assert q * (256 * d) == 256 * (q * d);
    Quotient(n, q, 256 * d, 256 * r + s);
  }

  /** The form of a point, byte by byte: a 4, then both coordinates, the most significant byte first. */
  lemma MarshalledExactly(p: Point, i: nat)
    requires i < 32
    ensures var raw := Marshalled(p);
      && |raw| == 65 && raw[0] == 4
      && raw[1 + i] as int == (p.x / Pow256(31 - i)) % 256
      && raw[33 + i] as int == (p.y / Pow256(31 - i)) % 256
  {
    FixedAt(p.x, 32, i);
    FixedAt(p.y, 32, i);
  }

  lemma MarshalledParts(p: Point)
    ensures Marshalled(p)[0] == 4 && Marshalled(p)[1..33] == Fixed(p.x, 32) && Marshalled(p)[33..65] == Fixed(p.y, 32)
  {
  }

  /** Marshalling then parsing recovers every point of the curve. */
  lemma ParseMarshalled(e: Curve, p: Point)
    requires OnCurve(e, p)
    ensures ParsePoint(e, Marshalled(p)) == Ok(p)
  {
    PrimeFits();
    MarshalledParts(p);
    FromFixed(p.x, 32);
    FromFixed(p.y, 32);
  }

  /** Parsing then marshalling recovers the bytes. */
  lemma MarshalParsed(e: Curve, raw: seq<byte>)
    requires ParsePoint(e, raw).Ok?
    ensures Marshalled(ParsePoint(e, raw).p) == raw
  {
    FixedOfFrom(raw[1..33]);
    FixedOfFrom(raw[33..65]);
    assert raw == [raw[0]] + raw[1..33] + raw[33..65];
  }

  /** Comparing the byte forms of two points of the curve compares the points. */
  lemma SameBytesSamePoint(e: Curve, p: Point, q: Point)
    requires OnCurve(e, p) && OnCurve(e, q)
    ensures Marshalled(p) == Marshalled(q) <==> p == q
  {
    ParseMarshalled(e, p);
    ParseMarshalled(e, q);
  }
}
