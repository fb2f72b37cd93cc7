/** IP addresses as `net.IP` keeps them (a byte slice, possibly empty or of odd length),
    their printed form, and CIDR blocks.

    The approver compares addresses by their printed form.  The main result here,
    `TextIdentifiesAddress`, is that the printed form names the address exactly: two
    byte slices print alike if and only if they are the same slice or the 4-byte and
    16-byte forms of one IPv4 address. */
module IPAddress {

  type Byte = b: int | 0 <= b < 256

  type IP = seq<Byte>

  const V4_IN_V6_PREFIX: IP := [0, 0, 0, 0, 0, 0, 0, 0, 0, 0, 255, 255]

  predicate IsMappedV4(ip: IP) {
    |ip| == 16 && ip[..12] == V4_IN_V6_PREFIX
  }

  /** The 4-byte form of an IPv4 address stays as it is, the 16-byte form is shortened;
      anything else is its own canonical form. */
  function Canonical(ip: IP): (c: IP)
    ensures IsMappedV4(ip) ==> V4_IN_V6_PREFIX + c == ip
    ensures !IsMappedV4(ip) ==> c == ip
    ensures !IsMappedV4(c)
  {
    if IsMappedV4(ip) then ip[12..] else ip
  }

  predicate SameAddress(a: IP, b: IP) {
    Canonical(a) == Canonical(b)
  }

  // ---------------------------------------------------------------- digits

  function DigitChar(d: int): (c: char)
    requires 0 <= d < 16
  {
    if d < 10 then ('0' as int + d) as char else ('a' as int + d - 10) as char
  }

  /** A number in base 10 or 16 with no leading zeros. */
  function Digits(n: nat, base: int): (s: string)
    requires base == 10 || base == 16
    ensures s != [] && forall c | c in s :: IsDigit(c, base)
    ensures |s| == 1 <==> n < base
  {
    if n < base then [DigitChar(n)] else Digits(n / base, base) + [DigitChar(n % base)]
  }

  predicate IsDigit(c: char, base: int) {
    '0' <= c <= '9' || (base == 16 && 'a' <= c <= 'f')
  }

  lemma {:induction false} DigitsInjective(m: nat, n: nat, base: int)
    requires base == 10 || base == 16
    requires Digits(m, base) == Digits(n, base)
    ensures m == n
  {
    var s := Digits(m, base);
    if m >= base {
      assert s[..|s| - 1] == Digits(m / base, base) == Digits(n / base, base);
      assert s[|s| - 1] == DigitChar(m % base) == DigitChar(n % base);
      DigitsInjective(m / base, n / base, base);
    }
  }

  function AllDigits(ns: seq<nat>, base: int): (parts: seq<string>)
    requires base == 10 || base == 16
    ensures |parts| == |ns|
    ensures forall i | 0 <= i < |ns| :: parts[i] == Digits(ns[i], base)
  {
    seq(|ns|, i requires 0 <= i < |ns| => Digits(ns[i], base))
  }

  lemma AllDigitsInjective(ms: seq<nat>, ns: seq<nat>, base: int)
    requires base == 10 || base == 16
    requires AllDigits(ms, base) == AllDigits(ns, base)
    ensures ms == ns
  {
    forall i | 0 <= i < |ms| ensures ms[i] == ns[i] {
      assert AllDigits(ms, base)[i] == AllDigits(ns, base)[i];
      DigitsInjective(ms[i], ns[i], base);
    }
  }

  // ---------------------------------------------------------------- join and split

  function Join(parts: seq<string>, sep: char): string {
    if parts == [] then []
    else if |parts| == 1 then parts[0]
    else parts[0] + [sep] + Join(parts[1..], sep)
  }

  function Split(s: string, sep: char): (parts: seq<string>)
    ensures parts != []
  {
    if s == [] then [[]]
    else
      var rest := Split(s[1..], sep);
      if s[0] == sep then [[]] + rest else [[s[0]] + rest[0]] + rest[1..]
  }

  ghost predicate FreeOf(parts: seq<string>, sep: char) {
    forall i | 0 <= i < |parts| :: sep !in parts[i]
  }

  lemma {:induction false} SplitWord(word: string, sep: char)
    requires sep !in word
    ensures Split(word, sep) == [word]
  {
    if word != [] {
      SplitWord(word[1..], sep);
      assert word == [word[0]] + word[1..];
    }
  }

  lemma {:induction false} SplitAtSeparator(word: string, rest: string, sep: char)
    requires sep !in word
    ensures Split(word + [sep] + rest, sep) == [word] + Split(rest, sep)
  {
    var s := word + [sep] + rest;
    if word == [] {
      assert s[1..] == rest;
    } else {
      SplitAtSeparator(word[1..], rest, sep);
      assert s[1..] == word[1..] + [sep] + rest;
      assert word == [word[0]] + word[1..];
    }
  }

  /** The pieces of a joined list; the empty list joins to the empty string, which is one
      empty piece. */
  function Pieces(parts: seq<string>): (p: seq<string>)
    ensures p != []
  {
    if parts == [] then [[]] else parts
  }

  lemma {:induction false} SplitJoin(parts: seq<string>, sep: char)
    requires FreeOf(parts, sep)
    ensures Split(Join(parts, sep), sep) == Pieces(parts)
  {
    if |parts| == 1 {
      SplitWord(parts[0], sep);
    } else if |parts| > 1 {
      SplitJoin(parts[1..], sep);
      SplitAtSeparator(parts[0], Join(parts[1..], sep), sep);
    }
  }

  lemma {:induction false} SplitJoinThen(parts: seq<string>, rest: string, sep: char)
    requires FreeOf(parts, sep)
    ensures Split(Join(parts, sep) + [sep] + rest, sep) == Pieces(parts) + Split(rest, sep)
  {
    if |parts| <= 1 {
      SplitAtSeparator(Join(parts, sep), rest, sep);
      assert Pieces(parts) == [Join(parts, sep)];
    } else {
      SplitJoinThen(parts[1..], rest, sep);
      SplitJoinFirst(parts, rest, sep);
      assert [parts[0]] + (parts[1..] + Split(rest, sep)) == parts + Split(rest, sep);
    }
  }

  lemma SplitJoinFirst(parts: seq<string>, rest: string, sep: char)
    requires |parts| > 1 && sep !in parts[0]
    ensures Split(Join(parts, sep) + [sep] + rest, sep) == [parts[0]] + Split(Join(parts[1..], sep) + [sep] + rest, sep)
  {
    var tail := Join(parts[1..], sep);
    SplitAtSeparator(parts[0], tail + [sep] + rest, sep);
    assert Join(parts, sep) + [sep] + rest == parts[0] + [sep] + (tail + [sep] + rest);
  }

  lemma {:induction false} JoinCharacters(parts: seq<string>, sep: char, c: char)
    requires c in Join(parts, sep)
    ensures (c == sep && |parts| > 1) || exists i | 0 <= i < |parts| :: c in parts[i]
  {
    if |parts| > 1 && c !in parts[0] && c != sep {
      JoinCharacters(parts[1..], sep, c);
      var i :| 0 <= i < |parts[1..]| && c in parts[1..][i];
      assert c in parts[i + 1];
    }
  }

  // ---------------------------------------------------------------- printed form

  /** Dotted decimal form of four bytes. */
  function Dotted(ip: IP): string
    requires |ip| == 4
  {
    Join(AllDigits(ip, 10), '.')
  }

  /** The eight 16-bit groups of a 16-byte address. */
  function Groups(ip: IP): (g: seq<nat>)
    requires |ip| == 16
    ensures |g| == 8 && forall i | 0 <= i < 8 :: g[i] == ip[2 * i] as int * 256 + ip[2 * i + 1] as int
  {
    seq(8, i requires 0 <= i < 8 => ip[2 * i] as int * 256 + ip[2 * i + 1] as int)
  }

  function ZerosFrom(g: seq<nat>, i: nat): (j: nat)
    requires i <= |g|
    ensures i <= j <= |g| && forall k | i <= k < j :: g[k] == 0
    ensures j < |g| ==> g[j] != 0
    decreases |g| - i
  {
    if i < |g| && g[i] == 0 then ZerosFrom(g, i + 1) else i
  }

  /** The first longest run of at least two zero groups, searched from `i` on; `best` is
      the run kept so far, the empty run (0, 0) when there is none. */
  function LongestZeroRun(g: seq<nat>, i: nat, best: (nat, nat)): (run: (nat, nat))
    requires i <= |g| && best.0 <= best.1 <= |g|
    requires forall k | best.0 <= k < best.1 :: g[k] == 0
    ensures run.0 <= run.1 <= |g| && forall k | run.0 <= k < run.1 :: g[k] == 0
    decreases |g| - i
  {
    if i == |g| then best
    else
      var j := ZerosFrom(g, i);
      if j - i >= 2 && j - i > best.1 - best.0 then LongestZeroRun(g, i + 1, (i, j))
      else LongestZeroRun(g, i + 1, best)
  }

  /** Colon-separated hexadecimal groups, the longest zero run written as "::". */
  function Colons(ip: IP): string
    requires |ip| == 16
  {
    var g := Groups(ip);
    var run := LongestZeroRun(g, 0, (0, 0));
    if run.0 == run.1 then Join(AllDigits(g, 16), ':')
    else Join(AllDigits(g[..run.0], 16), ':') + "::" + Join(AllDigits(g[run.1..], 16), ':')
  }

  function HexBytes(ip: IP): string {
    if ip == [] then []
    else [DigitChar(ip[0] / 16), DigitChar(ip[0] % 16)] + HexBytes(ip[1..])
  }

  /** `net.IP.String`. */
  function Text(ip: IP): string {
    if ip == [] then "<nil>"
    else if |ip| != 4 && |ip| != 16 then "?" + HexBytes(ip)
    else if |Canonical(ip)| == 4 then Dotted(Canonical(ip))
    else Colons(ip)
  }

  // ---------------------------------------------------------------- injectivity

  lemma DottedInjective(a: IP, b: IP)
    requires |a| == |b| == 4 && Dotted(a) == Dotted(b)
    ensures a == b
  {
    SplitJoin(AllDigits(a, 10), '.');
    SplitJoin(AllDigits(b, 10), '.');
    AllDigitsInjective(a, b, 10);
  }

  lemma GroupsInjective(a: IP, b: IP)
    requires |a| == |b| == 16 && Groups(a) == Groups(b)
    ensures a == b
  {
    forall k | 0 <= k < 16 ensures a[k] == b[k] {
      var i := k / 2;
      assert Groups(a)[i] == Groups(b)[i];
      assert a[2 * i] == b[2 * i] && a[2 * i + 1] == b[2 * i + 1];
      assert k == 2 * i || k == 2 * i + 1;
    }
  }

  /** The pieces of a printed address tell where the "::" is: before it come the nonempty
      pieces `a`, after it the nonempty pieces `b`. */
  function Compressed(a: seq<string>, b: seq<string>): (p: seq<string>) {
    Pieces(a) + [[]] + Pieces(b)
  }

  ghost predicate Nonempty(parts: seq<string>) {
    forall i | 0 <= i < |parts| :: parts[i] != []
  }

  lemma CompressedEnds(a: seq<string>, b: seq<string>)
    ensures |a| < |Compressed(a, b)| && Compressed(a, b)[|a|] == []
    ensures |b| < |Compressed(a, b)| && Compressed(a, b)[|Compressed(a, b)| - 1 - |b|] == []
    ensures forall i | 0 <= i < |a| :: Compressed(a, b)[i] == a[i]
    ensures Compressed(a, b)[|Compressed(a, b)| - |b|..] == b
  {
  }

  lemma SameLead(p: seq<string>, a: seq<string>, a': seq<string>)
    requires Nonempty(a) && |a| < |p| && p[|a|] == [] && forall i | 0 <= i < |a| :: p[i] == a[i]
    requires Nonempty(a') && |a'| < |p| && p[|a'|] == [] && forall i | 0 <= i < |a'| :: p[i] == a'[i]
    ensures a == a'
  {
    assert |a| == |a'|;
  }

  lemma SameTail(p: seq<string>, b: seq<string>, b': seq<string>)
    requires Nonempty(b) && |b| < |p| && p[|p| - 1 - |b|] == []
    requires Nonempty(b') && |b'| < |p| && p[|p| - 1 - |b'|] == []
    requires p[|p| - |b|..] == b && p[|p| - |b'|..] == b'
    ensures b == b'
  {
    assert forall i | |p| - |b| <= i < |p| :: p[i] == b[i - (|p| - |b|)];
    assert forall i | |p| - |b'| <= i < |p| :: p[i] == b'[i - (|p| - |b'|)];
    assert |b| == |b'|;
  }

  lemma CompressedInjective(a: seq<string>, b: seq<string>, a': seq<string>, b': seq<string>)
    requires Nonempty(a) && Nonempty(b) && Nonempty(a') && Nonempty(b')
    requires Compressed(a, b) == Compressed(a', b')
    ensures a == a' && b == b'
  {
    CompressedEnds(a, b);
    CompressedEnds(a', b');
    SameLead(Compressed(a, b), a, a');
    SameTail(Compressed(a, b), b, b');
  }

  lemma DoubleColon(before: string, after: string)
    ensures before + "::" + after == before + [':'] + ([] + [':'] + after)
  {
  }

  /** The pieces of a compressed text. */
  lemma SplitCompressed(a: seq<string>, b: seq<string>)
    requires FreeOf(a, ':') && FreeOf(b, ':')
    ensures Split(Join(a, ':') + "::" + Join(b, ':'), ':') == Compressed(a, b)
  {
    var tail := Join(b, ':');
    SplitJoin(b, ':');
    SplitAtSeparator([], tail, ':');
    SplitJoinThen(a, [] + [':'] + tail, ':');
    DoubleColon(Join(a, ':'), tail);
    assert Pieces(a) + ([[]] + Pieces(b)) == Compressed(a, b);
  }

  /** An empty piece shows that a zero run was left out. */
  lemma EmptyPiece(ip: IP)
    requires |ip| == 16
    ensures var run := LongestZeroRun(Groups(ip), 0, (0, 0));
            [] in Split(Colons(ip), ':') <==> run.0 < run.1
  {
    var g := Groups(ip);
    var run := LongestZeroRun(g, 0, (0, 0));
    if run.0 == run.1 {
      SplitJoin(AllDigits(g, 16), ':');
    } else {
      SplitCompressed(AllDigits(g[..run.0], 16), AllDigits(g[run.1..], 16));
    }
  }

  lemma CompressedGroups(g: seq<nat>, h: seq<nat>, r: (nat, nat), q: (nat, nat))
    requires |g| == |h| && r.0 <= r.1 <= |g| && q.0 <= q.1 <= |h|
    requires forall k | r.0 <= k < r.1 :: g[k] == 0
    requires forall k | q.0 <= k < q.1 :: h[k] == 0
    requires Join(AllDigits(g[..r.0], 16), ':') + "::" + Join(AllDigits(g[r.1..], 16), ':')
          == Join(AllDigits(h[..q.0], 16), ':') + "::" + Join(AllDigits(h[q.1..], 16), ':')
    ensures g == h
  {
    var a, b := AllDigits(g[..r.0], 16), AllDigits(g[r.1..], 16);
    var a', b' := AllDigits(h[..q.0], 16), AllDigits(h[q.1..], 16);
    SplitCompressed(a, b);
    SplitCompressed(a', b');
    CompressedInjective(a, b, a', b');
    AllDigitsInjective(g[..r.0], h[..q.0], 16);
    AllDigitsInjective(g[r.1..], h[q.1..], 16);
    ZeroRunDetermined(g, h, r, q);
  }

  lemma ColonsInjective(x: IP, y: IP)
    requires |x| == |y| == 16 && Colons(x) == Colons(y)
    ensures x == y
  {
    var g, h := Groups(x), Groups(y);
    var r, q := LongestZeroRun(g, 0, (0, 0)), LongestZeroRun(h, 0, (0, 0));
    EmptyPiece(x);
    EmptyPiece(y);
    if r.0 == r.1 {
      SplitJoin(AllDigits(g, 16), ':');
      SplitJoin(AllDigits(h, 16), ':');
      AllDigitsInjective(g, h, 16);
    } else {
      CompressedGroups(g, h, r, q);
    }
    GroupsInjective(x, y);
  }

  lemma ZeroRunDetermined(g: seq<nat>, h: seq<nat>, r: (nat, nat), q: (nat, nat))
    requires |g| == |h| && r.0 <= r.1 <= |g| && q.0 <= q.1 <= |h|
    requires forall k | r.0 <= k < r.1 :: g[k] == 0
    requires forall k | q.0 <= k < q.1 :: h[k] == 0
    requires g[..r.0] == h[..q.0] && g[r.1..] == h[q.1..]
    ensures g == h
  {
    assert r.0 == |g[..r.0]| == |h[..q.0]| == q.0;
    assert |g| - r.1 == |g[r.1..]| == |h[q.1..]| == |h| - q.1;
    forall k | 0 <= k < |g| ensures g[k] == h[k] {
      if k < r.0 {
        assert g[k] == g[..r.0][k] == h[..q.0][k];
      } else if k >= r.1 {
        assert g[k] == g[r.1..][k - r.1] == h[q.1..][k - r.1];
      }
    }
  }

  lemma {:induction false} HexBytesInjective(a: IP, b: IP)
    requires HexBytes(a) == HexBytes(b)
    ensures a == b
  {
    if a != [] && b != [] {
      var s := HexBytes(a);
      assert s[0] == DigitChar(a[0] / 16) == DigitChar(b[0] / 16);
      assert s[1] == DigitChar(a[0] % 16) == DigitChar(b[0] % 16);
      assert s[2..] == HexBytes(a[1..]) == HexBytes(b[1..]);
      HexBytesInjective(a[1..], b[1..]);
      assert a == [a[0]] + a[1..] && b == [b[0]] + b[1..];
    }
  }

  /** The alphabets of the dotted and of the colon form. */
  lemma DottedAlphabet(ip: IP)
    requires |ip| == 4
    ensures '.' in Dotted(ip)
    ensures forall c | c in Dotted(ip) :: c == '.' || IsDigit(c, 10)
  {
    var parts := AllDigits(ip, 10);
    assert Join(parts, '.')[|parts[0]|] == '.';
    forall c | c in Dotted(ip) ensures c == '.' || IsDigit(c, 10) {
      JoinCharacters(parts, '.', c);
    }
  }

  lemma ColonsAlphabet(ip: IP)
    requires |ip| == 16
    ensures forall c | c in Colons(ip) :: c == ':' || IsDigit(c, 16)
  {
    var g := Groups(ip);
    var run := LongestZeroRun(g, 0, (0, 0));
    forall c | c in Colons(ip) ensures c == ':' || IsDigit(c, 16) {
      if run.0 == run.1 {
        JoinCharacters(AllDigits(g, 16), ':', c);
      } else if c in Join(AllDigits(g[..run.0], 16), ':') {
        JoinCharacters(AllDigits(g[..run.0], 16), ':', c);
      } else if c in Join(AllDigits(g[run.1..], 16), ':') {
        JoinCharacters(AllDigits(g[run.1..], 16), ':', c);
      }
    }
  }

  /** The form an address is printed in can be read off the text. */
  lemma TextForm(ip: IP)
    ensures '<' in Text(ip) <==> ip == []
    ensures '?' in Text(ip) <==> ip != [] && |ip| != 4 && |ip| != 16
    ensures '.' in Text(ip) <==> |Canonical(ip)| == 4
  {
    if |ip| == 4 || |ip| == 16 {
      if |Canonical(ip)| == 4 {
        DottedAlphabet(Canonical(ip));
      } else {
        ColonsAlphabet(ip);
      }
    } else if ip != [] {
      assert Text(ip)[0] == '?';
      HexBytesAlphabet(ip);
    }
  }

  lemma {:induction false} HexBytesAlphabet(ip: IP)
    ensures forall c | c in HexBytes(ip) :: IsDigit(c, 16)
  {
    if ip != [] {
      HexBytesAlphabet(ip[1..]);
    }
  }

  /** Two addresses print alike exactly when they are the same address. */
  lemma TextIdentifiesAddress(a: IP, b: IP)
    ensures Text(a) == Text(b) <==> SameAddress(a, b)
  {
    TextForm(a);
    TextForm(b);
    if Text(a) == Text(b) {
      if a == [] {
      } else if |a| != 4 && |a| != 16 {
        assert HexBytes(a) == Text(a)[1..] == HexBytes(b);
        HexBytesInjective(a, b);
      } else if |Canonical(a)| == 4 {
        DottedInjective(Canonical(a), Canonical(b));
      } else {
        ColonsInjective(a, b);
      }
    }
    if SameAddress(a, b) && a != b {
      assert |Canonical(a)| == 4;
    }
  }

  // ---------------------------------------------------------------- CIDR blocks

  /** A network prefix and its number of significant bits (section 3.1 of RFC 4632), in
      canonical form. */
  datatype CIDR = CIDR(network: IP, ones: nat)

  /** Bit `i` of a number, least significant first. */
  function LowBit(n: nat, i: nat): int {
    if i == 0 then n % 2 else LowBit(n / 2, i - 1)
  }

  /** Bit `i` of an address, most significant first. */
  function Bit(ip: IP, i: nat): int
    requires i < 8 * |ip|
  {
    LowBit(ip[i / 8], 7 - i % 8)
  }

  /** `net.IPNet.Contains`: same address family and the same leading bits. */
  predicate Contains(block: CIDR, ip: IP) {
    var c := Canonical(ip);
    |c| == |block.network| &&
    forall i: nat | i < block.ones && i < 8 * |c| :: Bit(block.network, i) == Bit(c, i)
  }

  function Pow2(n: nat): (p: nat)
    ensures p > 0
  {
    if n == 0 then 1 else 2 * Pow2(n - 1)
  }

  lemma {:induction false} LowBitsDetermine(a: nat, b: nat, n: nat)
    requires a < Pow2(n) && b < Pow2(n)
    requires forall i: nat | i < n :: LowBit(a, i) == LowBit(b, i)
    ensures a == b
  {
    if n > 0 {
      assert LowBit(a, 0) == LowBit(b, 0);
      forall i: nat | i < n - 1 ensures LowBit(a / 2, i) == LowBit(b / 2, i) {
        assert LowBit(a, i + 1) == LowBit(b, i + 1);
      }
      LowBitsDetermine(a / 2, b / 2, n - 1);
    }
  }

  lemma BitOfByte(ip: IP, j: nat, i: nat)
    requires j < |ip| && i < 8
    ensures Bit(ip, 8 * j + (7 - i)) == LowBit(ip[j], i)
  {
    assert (8 * j + (7 - i)) / 8 == j && (8 * j + (7 - i)) % 8 == 7 - i;
  }

  /** A block shrinks as its prefix grows, from the whole address family down to one
      address. */
  lemma BlocksAreNested(network: IP, shorter: nat, longer: nat, ip: IP)
    requires shorter <= longer
    ensures Contains(CIDR(network, longer), ip) ==> Contains(CIDR(network, shorter), ip)
    ensures Contains(CIDR(network, 0), ip) <==> |Canonical(ip)| == |network|
    ensures Contains(CIDR(network, 8 * |network|), ip) <==> Canonical(ip) == network
  {
    var c := Canonical(ip);
    if Contains(CIDR(network, 8 * |network|), ip) {
      forall j | 0 <= j < |c| ensures c[j] == network[j] {
        forall i: nat | i < 8 ensures LowBit(c[j], i) == LowBit(network[j], i) {
          BitOfByte(c, j, i);
          BitOfByte(network, j, i);
        }
        assert Pow2(4) == 16 && Pow2(8) == 16 * Pow2(4);
        LowBitsDetermine(c[j], network[j], 8);
      }
    }
  }
}
