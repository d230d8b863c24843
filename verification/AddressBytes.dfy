/** Addresses as the bytes the program holds (pkg/ip/cidr.go). The rest of the model works on numbers; here the
    conversions between the two are proved inverse to each other, and the byte-wise construction of the last address
    of a network is proved to be the arithmetic one.

    Bytes are big-endian. IPv4 addresses are in their four-byte form. */
module AddressBytes {
  import opened Addresses
  import Multiples

  type Byte = b: int | 0 <= b < 256

  type Bytes = seq<Byte>

  function Length(f: Family): nat {
    if f.IPv4? then 4 else 16
  }

  /** The number a byte string stands for. */
  function Value(bs: Bytes): nat {
    if bs == [] then 0 else Value(bs[..|bs| - 1]) * 256 + bs[|bs| - 1]
  }

  /** The shortest byte string for a number. */
  function Minimal(n: nat): Bytes {
    if n == 0 then [] else Minimal(n / 256) + [n % 256]
  }

  function Zeroes(n: nat): Bytes {
    seq(n, _ => 0)
  }

  function Padded(i: int, n: nat): Option<Bytes> {
    if i < 0 then None
    else
      var bytes := Minimal(i);
      if |bytes| == n then Some(bytes)
      else if |bytes| > n then None
      else Some(Zeroes(n - |bytes|) + bytes)
  }

  function IntToIP(i: int, f: Family): Option<Bytes> {
    Padded(i, Length(f))
  }

  // ----- numbers and bytes -----

  lemma {:induction false} MinimalValue(n: nat)
    ensures Value(Minimal(n)) == n
  {
    if n > 0 {
      MinimalValue(n / 256);
      assert Minimal(n)[..|Minimal(n)| - 1] == Minimal(n / 256);
    }
  }

  lemma {:induction false} Leading(n: nat, bs: Bytes)
    ensures Value(Zeroes(n) + bs) == Value(bs)
    decreases |bs|, n
  {
    var zs := Zeroes(n) + bs;
    if bs != [] {
      Leading(n, bs[..|bs| - 1]);
      assert zs[..|zs| - 1] == Zeroes(n) + bs[..|bs| - 1];
    } else if n > 0 {
      Leading(n - 1, []);
      assert zs[..n - 1] == Zeroes(n - 1) + [];
    }
  }

  /** The numbers of `n` bytes are those below 2 to the 8n, and each has exactly one byte string of length `n`. */
  lemma {:induction false} ValueBound(bs: Bytes)
    ensures Value(bs) < Pow2(8 * |bs|)
  {
    if bs != [] {
      var front := bs[..|bs| - 1];
      ValueBound(front);
      Pow2Adds(8 * |front|, 8);
      Pow2Eight();
    }
  }

  lemma Pow2Eight()
    ensures Pow2(8) == 256
  {
    assert Pow2(8) == 16 * Pow2(4) && Pow2(4) == 16 * Pow2(0);
  }

  lemma {:induction false} ValueInjective(cs: Bytes, bs: Bytes)
    requires |cs| == |bs| && Value(cs) == Value(bs)
    ensures cs == bs
  {
    if cs != [] {
      var n := |cs| - 1;
      ValueInjective(cs[..n], bs[..n]);
      assert cs == cs[..n] + [cs[n]] && bs == bs[..n] + [bs[n]];
    }
  }

  lemma {:induction false} MinimalLength(n: nat, k: nat)
    ensures |Minimal(n)| <= k <==> n < Pow2(8 * k)
    decreases k
  {
    if k > 0 && n > 0 {
      MinimalLength(n / 256, k - 1);
      Pow2Adds(8 * (k - 1), 8);
      Pow2Eight();
    }
  }

  lemma PaddedExact(i: int, n: nat)
    ensures Padded(i, n).Some? <==> 0 <= i < Pow2(8 * n)
    ensures Padded(i, n).Some? ==> |Padded(i, n).value| == n && Value(Padded(i, n).value) == i
  {
    if i >= 0 {
      MinimalValue(i);
      MinimalLength(i, n);
      if |Minimal(i)| <= n {
        Leading(n - |Minimal(i)|, Minimal(i));
      }
    }
  }

  /** A number converts exactly when it is an address of the family, and to the bytes that stand for it. */
  lemma IntToIPExact(i: int, f: Family)
    ensures IntToIP(i, f).Some? <==> 0 <= i < Space(f)
    ensures IntToIP(i, f).Some? ==> |IntToIP(i, f).value| == Length(f) && Value(IntToIP(i, f).value) == i
  {
    PaddedExact(i, Length(f));
    assert Bits(f) == 8 * Length(f);
  }

  /** Bytes to number and back. */
  lemma BytesRoundTrip(bs: Bytes, f: Family)
    requires |bs| == Length(f)
    ensures IntToIP(Value(bs), f) == Some(bs)
  {
    ValueBound(bs);
    IntToIPExact(Value(bs), f);
    ValueInjective(IntToIP(Value(bs), f).value, bs);
  }

  /** The address `offset` above one, on bytes. */
  function Offset(bs: Bytes, f: Family, offset: int): Option<Bytes> {
    if offset < 0 then None else IntToIP(Value(bs) + offset, f)
  }

  /** Adding an offset to the bytes of an address is what the model does with its number. */
  lemma OffsetOnBytes(bs: Bytes, f: Family, offset: int)
    ensures Offset(bs, f, offset).None? <==> NextIPWithOffset(f, Value(bs), offset).None?
    ensures Offset(bs, f, offset).Some? ==> |Offset(bs, f, offset).value| == Length(f)
    ensures Offset(bs, f, offset).Some? ==>
              NextIPWithOffset(f, Value(bs), offset) == Some(Value(Offset(bs, f, offset).value))
  {
    if offset >= 0 {
      var i := Value(bs) + offset;
      IntToIPExact(i, f);
      SameOffset(Value(bs), f, offset, IntToIP(i, f));
    }
  }

  lemma SameOffset(v: nat, f: Family, offset: nat, r: Option<Bytes>)
    requires r.Some? <==> v + offset < Space(f)
    requires r.Some? ==> Value(r.value) == v + offset
    ensures r.None? <==> NextIPWithOffset(f, v, offset).None?
    ensures r.Some? ==> NextIPWithOffset(f, v, offset) == Some(Value(r.value))
  {
  }

  // ----- masks and the last address -----

  /** Bitwise or. */
  function Or(a: nat, b: nat): nat
    decreases a + b
  {
    if a == 0 && b == 0 then 0
    else 2 * Or(a / 2, b / 2) + if a % 2 == 1 || b % 2 == 1 then 1 else 0
  }

  /** The host bits among the first `k` bytes, and among those the ones in the last of them. */
  function HostBitsIn(n: nat, hostBits: nat, k: nat): nat {
    var after := 8 * (n - k);
    if hostBits <= after then 0 else hostBits - after
  }

  function HostBitsAt(n: nat, hostBits: nat, k: nat): nat {
    var h := HostBitsIn(n, hostBits, k + 1);
    if h > 8 then 8 else h
  }

  /** The mask of `n` bytes: network bits one, host bits zero. */
  ghost predicate IsMask(mask: Bytes, n: nat, hostBits: nat) {
    |mask| == n && forall k :: 0 <= k < n ==> mask[k] == 256 - Pow2(HostBitsAt(n, hostBits, k))
  }

  lemma {:induction false} OrFills(a: nat, h: nat)
    requires a % Pow2(h) == 0
    ensures Or(a, Pow2(h) - 1) == a + Pow2(h) - 1
    decreases h, a
  {
    if h > 0 {
      Halves(a, Pow2(h - 1));
      OrFills(a / 2, h - 1);
    } else if a > 0 {
      assert a / 2 % Pow2(0) == 0;
      OrFills(a / 2, 0);
    }
  }

  lemma Halves(a: nat, m: nat)
    requires m >= 1 && a % (2 * m) == 0
    ensures a % 2 == 0 && a / 2 % m == 0 && (2 * m - 1) / 2 == m - 1 && (2 * m - 1) % 2 == 1
  {
    Multiples.Quotient(a, 2 * m);
    var q := a / (2 * m);
    assert a == 2 * (q * m);
    Multiples.Unique(q, 0, m);
  }

  /** A number with low bits zero: the last byte has them zero, and the rest the rest of them. */
  lemma LowBits(v: nat, b: nat, h: nat)
    requires b < 256 && (v * 256 + b) % Pow2(h) == 0
    ensures h <= 8 ==> b % Pow2(h) == 0
    ensures h > 8 ==> b == 0 && v % Pow2(h - 8) == 0
  {
    Pow2Eight();
    if h <= 8 {
      Pow2Adds(8 - h, h);
      LowPart(v, b, Pow2(8 - h), Pow2(h));
    } else {
      Pow2Adds(h - 8, 8);
      HighPart(v, b, Pow2(h - 8));
    }
  }

  lemma LowPart(v: nat, b: nat, c: nat, p: nat)
    requires p >= 1 && c * p == 256 && (v * 256 + b) % p == 0
    ensures b % p == 0
  {
    var x := v * 256 + b;
    Multiples.Quotient(x, p);
    assert (x / p - v * c) * p == x - v * (c * p);
    Multiples.Unique(x / p - v * c, 0, p);
  }

  lemma HighPart(v: nat, b: nat, p: nat)
    requires p >= 1 && b < 256 && (v * 256 + b) % (p * 256) == 0
    ensures b == 0 && v % p == 0
  {
    var x := v * 256 + b;
    var q := x / (p * 256);
    Multiples.Quotient(x, p * 256);
    assert q * (p * 256) == q * p * 256;
    assert v == q * p;
    Multiples.Unique(q, 0, p);
  }

  /** The network bytes have no host bit set, in any front part of them. */
  lemma {:induction false} FrontAligned(ip: Bytes, n: nat, hostBits: nat, k: nat)
    requires |ip| == n && k <= n && Value(ip) % Pow2(hostBits) == 0
    ensures Value(ip[..k]) % Pow2(HostBitsIn(n, hostBits, k)) == 0
    decreases n - k
  {
    if k == n {
      assert ip[..k] == ip;
    } else {
      FrontAligned(ip, n, hostBits, k + 1);
      assert ip[..k + 1][..k] == ip[..k];
      LowBits(Value(ip[..k]), ip[k], HostBitsIn(n, hostBits, k + 1));
    }
  }

  /** One byte more with its host bits set. `h` is the number of host bits among all bytes so far. */
  lemma FillByte(v: nat, b: Byte, h: nat)
    requires (v * 256 + b) % Pow2(h) == 0
    ensures var here, above := if h > 8 then 8 else h, if h > 8 then h - 8 else 0;
            && Or(b, Pow2(here) - 1) == b + Pow2(here) - 1 < 256
            && 256 * (Pow2(above) - 1) + Pow2(here) - 1 == Pow2(h) - 1
  {
    LowBits(v, b, h);
    Pow2Eight();
    if h > 8 {
      Pow2Adds(h - 8, 8);
      OrFills(b, 8);
    } else {
      Pow2Adds(8 - h, h);
      FillBound(b, Pow2(8 - h), Pow2(h));
      OrFills(b, h);
    }
  }

  lemma FillBound(b: nat, c: nat, p: nat)
    requires p >= 1 && c * p == 256 && b < 256 && b % p == 0
    ensures b + p <= 256
  {
    Multiples.Quotient(b, p);
    Multiples.QuotientBound(b, c, p);
    Multiples.Ordered(b / p, c, p);
  }

  /** `end` is the first `k` bytes of `ip` with their host bits set. */
  ghost predicate Filled(end: Bytes, ip: Bytes, hostBits: nat, k: nat)
    requires k <= |ip|
  {
    |end| == k && Value(end) == Value(ip[..k]) + Pow2(HostBitsIn(|ip|, hostBits, k)) - 1
  }

  lemma AppendFilled(end: Bytes, ip: Bytes, hostBits: nat, k: nat, x: Byte)
    requires k < |ip| && Filled(end, ip, hostBits, k)
    requires var h, h' := HostBitsIn(|ip|, hostBits, k), HostBitsIn(|ip|, hostBits, k + 1);
             256 * (Pow2(h) - 1) + (x - ip[k]) == Pow2(h') - 1
    ensures Filled(end + [x], ip, hostBits, k + 1)
  {
    assert ip[..k + 1][..k] == ip[..k];
    assert (end + [x])[..k] == end;
  }

  lemma NextByte(ip: Bytes, hostBits: nat, k: nat)
    requires k < |ip| && Value(ip) % Pow2(hostBits) == 0
    ensures var h := HostBitsAt(|ip|, hostBits, k);
            && Or(ip[k], Pow2(h) - 1) == ip[k] + Pow2(h) - 1 < 256
            && 256 * (Pow2(HostBitsIn(|ip|, hostBits, k)) - 1) + (Pow2(h) - 1) == Pow2(HostBitsIn(|ip|, hostBits, k + 1)) - 1
  {
    FillFront(ip, hostBits, k, HostBitsIn(|ip|, hostBits, k + 1));
  }

  lemma FillFront(ip: Bytes, hostBits: nat, k: nat, h: nat)
    requires k < |ip| && Value(ip) % Pow2(hostBits) == 0 && h == HostBitsIn(|ip|, hostBits, k + 1)
    ensures var here, above := if h > 8 then 8 else h, if h > 8 then h - 8 else 0;
            && Or(ip[k], Pow2(here) - 1) == ip[k] + Pow2(here) - 1 < 256
            && 256 * (Pow2(above) - 1) + Pow2(here) - 1 == Pow2(h) - 1
  {
    FrontAligned(ip, |ip|, hostBits, k + 1);
    FrontByte(ip, k);
    FillByte(Value(ip[..k]), ip[k], h);
  }

  lemma FrontByte(ip: Bytes, k: nat)
    requires k < |ip|
    ensures Value(ip[..k + 1]) == Value(ip[..k]) * 256 + ip[k]
  {
    assert ip[..k + 1][..k] == ip[..k];
  }

  /** The network bytes with all host bits set. */
  method SetHostBits(ip: Bytes, mask: Bytes, ghost hostBits: nat) returns (end: Bytes)
    requires hostBits <= 8 * |ip| && IsMask(mask, |ip|, hostBits) && Value(ip) % Pow2(hostBits) == 0
    ensures |end| == |ip| && Value(end) == Value(ip) + Pow2(hostBits) - 1
  {
    end := [];
    for k := 0 to |ip|
      invariant Filled(end, ip, hostBits, k)
    {
      NextByte(ip, hostBits, k);
      AppendFilled(end, ip, hostBits, k, Or(ip[k], 255 - mask[k]));
      end := end + [Or(ip[k], 255 - mask[k])];
    }
    assert ip[..|ip|] == ip;
  }

  /** The byte-wise last address of a network: all host bits set, less one for broadcast. It stands for the last
      address the model computes with numbers. */
  method LastIPBytes(ip: Bytes, mask: Bytes, f: Family, hostBits: nat) returns (end: Bytes)
    requires |ip| == Length(f) && IsMask(mask, |ip|, hostBits)
    requires Subnet(f, Value(ip), hostBits).Valid()
    ensures |end| == Length(f)
    ensures Value(end) == Subnet(f, Value(ip), hostBits).LastIP()
  {
    if hostBits == 0 {
      return ip;
    }
    end := SetHostBits(ip, mask, hostBits);
    if f.IPv4? && hostBits != 1 {
      LastByteOdd(end, Value(ip), hostBits);
      ghost var was := end;
      end := end[3 := end[3] - 1];
      assert end[..3] == was[..3];
    }
  }

  lemma LastByteOdd(end: Bytes, base: nat, hostBits: nat)
    requires |end| > 0 && hostBits >= 1 && base % Pow2(hostBits) == 0
    requires Value(end) == base + Pow2(hostBits) - 1
    ensures end[|end| - 1] >= 1
  {
    Multiples.MultipleOfProduct(base, Pow2(hostBits - 1), 2);
    OddEnd(Value(end[..|end| - 1]), end[|end| - 1], base, Pow2(hostBits - 1));
  }

  lemma OddEnd(v: nat, last: nat, base: nat, p: nat)
    requires base % 2 == 0 && v * 256 + last == base + 2 * p - 1
    ensures last >= 1
  {
  }
}
