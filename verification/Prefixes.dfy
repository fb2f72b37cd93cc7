/** What a CIDR block contains, by numbers: the addresses of its family that agree with the
    network after division by a power of two (section 3.1 of RFC 4632). */
module Prefixes {
  import opened IPAddress

  /** The big-endian number of a byte slice. */
  function Value(ip: IP): nat {
    if ip == [] then 0 else Value(ip[..|ip| - 1]) * 256 + ip[|ip| - 1]
  }

  lemma {:induction false} Pow2Sum(a: nat, b: nat)
    ensures Pow2(a + b) == Pow2(a) * Pow2(b)
  {
    if a > 0 {
      Pow2Sum(a - 1, b);
    }
  }

  lemma Pow2Byte()
    ensures Pow2(8) == 256
  {
    assert Pow2(4) == 16;
    Pow2Sum(4, 4);
  }

  lemma {:induction false} ValueIsBounded(ip: IP)
    ensures Value(ip) < Pow2(8 * |ip|)
  {
    if ip != [] {
      ValueIsBounded(ip[..|ip| - 1]);
      Pow2Byte();
      Pow2Sum(8, 8 * (|ip| - 1));
      assert 8 + 8 * (|ip| - 1) == 8 * |ip|;
    }
  }

  /** Below the last byte the bits are those of the byte, above it those of the rest. */
  lemma {:induction false} LowBitOfBytes(rest: nat, width: nat, byte: nat, i: nat)
    requires byte < Pow2(width)
    ensures LowBit(rest * Pow2(width) + byte, i) == if i < width then LowBit(byte, i) else LowBit(rest, i - width)
  {
    var n := rest * Pow2(width) + byte;
    if width == 0 {
      assert n == rest;
    } else {
      var half := rest * Pow2(width - 1);
      assert n == 2 * half + byte by {
        assert rest * Pow2(width) == 2 * (rest * Pow2(width - 1));
      }
      assert n / 2 == half + byte / 2 && n % 2 == byte % 2;
      if i > 0 {
        LowBitOfBytes(rest, width - 1, byte / 2, i - 1);
      }
    }
  }

  lemma {:induction false} BitOfValue(ip: IP, i: nat)
    requires i < 8 * |ip|
    ensures Bit(ip, i) == LowBit(Value(ip), 8 * |ip| - 1 - i)
    decreases |ip|
  {
    var last := |ip| - 1;
    Pow2Byte();
    LowBitOfBytes(Value(ip[..last]), 8, ip[last], 8 * |ip| - 1 - i);
    if i < 8 * last {
      BitOfValue(ip[..last], i);
      assert ip[..last][i / 8] == ip[i / 8];
    } else {
      assert i / 8 == last && 8 * |ip| - 1 - i == 7 - i % 8;
    }
  }

  /** Without the lowest `m` bits. */
  function Drop(n: nat, m: nat): nat {
    if m == 0 then n else Drop(n / 2, m - 1)
  }

  lemma {:induction false} LowBitOfDrop(n: nat, m: nat, i: nat)
    ensures LowBit(Drop(n, m), i) == LowBit(n, m + i)
  {
    if m > 0 {
      LowBitOfDrop(n / 2, m - 1, i);
    }
  }

  lemma {:induction false} DropIsBounded(n: nat, m: nat, k: nat)
    requires n < Pow2(m + k)
    ensures Drop(n, m) < Pow2(k)
  {
    if m > 0 {
      DropIsBounded(n / 2, m - 1, k);
    }
  }

  lemma AtLeast(k: int, d: nat)
    requires k >= 1
    ensures k * d >= d
  {
    assert (k - 1) * d >= 0;
  }

  lemma OneQuotient(d: nat, q: int, r: int, q': int, r': int)
    requires 0 <= r < d && 0 <= r' < d && q * d + r == q' * d + r'
    ensures q == q'
  {
    assert (q - q') * d == r' - r && (q' - q) * d == r - r';
    if q > q' {
      AtLeast(q - q', d);
    } else if q < q' {
      AtLeast(q' - q, d);
    }
  }

  lemma HalvedQuotient(n: nat, d: nat)
    requires d > 0
    ensures n / (2 * d) == n / 2 / d
  {
    var h := n / 2;
    var q, r := h / d, 2 * (h % d) + n % 2;
    assert h == q * d + h % d;
    assert n == 2 * (q * d) + r == q * (2 * d) + r;
    assert n == (n / (2 * d)) * (2 * d) + n % (2 * d);
    OneQuotient(2 * d, n / (2 * d), n % (2 * d), q, r);
  }

  lemma {:induction false} DropIsQuotient(n: nat, m: nat)
    ensures Drop(n, m) == n / Pow2(m)
  {
    if m > 0 {
      DropIsQuotient(n / 2, m - 1);
      HalvedQuotient(n, Pow2(m - 1));
    }
  }

  /** Numbers of `width` bits that agree from bit `m` on. */
  ghost predicate SameHighBits(a: nat, b: nat, m: nat, width: nat) {
    forall i: nat | m <= i < width :: LowBit(a, i) == LowBit(b, i)
  }

  /** Agreeing in the leading bits is agreeing after dropping the others. */
  lemma HighBitsAreDrop(a: nat, b: nat, m: nat, width: nat)
    requires m <= width && a < Pow2(width) && b < Pow2(width)
    ensures SameHighBits(a, b, m, width) <==> Drop(a, m) == Drop(b, m)
  {
    if SameHighBits(a, b, m, width) {
      DropIsBounded(a, m, width - m);
      DropIsBounded(b, m, width - m);
      forall i: nat | i < width - m ensures LowBit(Drop(a, m), i) == LowBit(Drop(b, m), i) {
        LowBitOfDrop(a, m, i);
        LowBitOfDrop(b, m, i);
        assert LowBit(a, m + i) == LowBit(b, m + i);
      }
      LowBitsDetermine(Drop(a, m), Drop(b, m), width - m);
    } else {
      var i: nat :| m <= i < width && LowBit(a, i) != LowBit(b, i);
      LowBitOfDrop(a, m, i - m);
      LowBitOfDrop(b, m, i - m);
    }
  }

  ghost predicate SameLeadingBits(a: IP, b: IP, ones: nat)
    requires |a| == |b| && ones <= 8 * |a|
  {
    forall i: nat | i < ones :: Bit(a, i) == Bit(b, i)
  }

  /** The leading bits of two slices of one length are the high bits of their numbers. */
  lemma LeadingBitsAreHigh(a: IP, b: IP, ones: nat)
    requires |a| == |b| && ones <= 8 * |a|
    ensures SameLeadingBits(a, b, ones) <==> SameHighBits(Value(a), Value(b), 8 * |a| - ones, 8 * |a|)
  {
    var width := 8 * |a|;
    if SameLeadingBits(a, b, ones) {
      forall i: nat | width - ones <= i < width ensures LowBit(Value(a), i) == LowBit(Value(b), i) {
        BitOfValue(a, width - 1 - i);
        BitOfValue(b, width - 1 - i);
      }
    } else {
      var i: nat :| i < ones && Bit(a, i) != Bit(b, i);
      BitOfValue(a, i);
      BitOfValue(b, i);
      assert LowBit(Value(a), width - 1 - i) != LowBit(Value(b), width - 1 - i);
    }
  }

  /** A block of any prefix length contains exactly the addresses of its family whose number,
      divided by two to the free bits, is that of the network. */
  lemma BlockContents(network: IP, ones: nat, ip: IP)
    requires ones <= 8 * |network|
    ensures Contains(CIDR(network, ones), ip) <==>
            |Canonical(ip)| == |network| &&
            Value(Canonical(ip)) / Pow2(8 * |network| - ones) == Value(network) / Pow2(8 * |network| - ones)
  {
    var c, width := Canonical(ip), 8 * |network|;
    if |c| == |network| {
      ValueIsBounded(c);
      ValueIsBounded(network);
      LeadingBitsAreHigh(network, c, ones);
      HighBitsAreDrop(Value(network), Value(c), width - ones, width);
      DropIsQuotient(Value(c), width - ones);
      DropIsQuotient(Value(network), width - ones);
    }
  }
}
