/** What the printed form of an address is, by reading it back: decimal numbers, hexadecimal
    groups, and the one run of zero groups that is left out. */
module AddressText {
  import opened IPAddress

  // ================================================================ reading numbers

  function DigitValue(c: char): int {
    if '0' <= c <= '9' then c as int - '0' as int else c as int - 'a' as int + 10
  }

  /** The number that a text denotes in some base. */
  function NumberIn(s: string, base: int): int {
    if s == [] then 0 else NumberIn(s[..|s| - 1], base) * base + DigitValue(s[|s| - 1])
  }

  /** Lower-case digits and no leading zero. */
  ghost predicate Numeral(s: string, base: int) {
    s != [] && (s[0] == '0' ==> s == "0") && forall c | c in s :: '0' <= c <= '9' || (base == 16 && 'a' <= c <= 'f')
  }

  /** Printing a number and reading it are inverse, and the numeral is the shortest. */
  lemma {:induction false} DigitsReadBack(n: nat, base: int)
    requires base == 10 || base == 16
    ensures NumberIn(Digits(n, base), base) == n && Numeral(Digits(n, base), base)
    ensures Digits(n, base)[0] == '0' <==> n == 0
  {
    var s := Digits(n, base);
    if n >= base {
      DigitsReadBack(n / base, base);
      assert s[..|s| - 1] == Digits(n / base, base) && s[|s| - 1] == DigitChar(n % base);
      assert s[0] == Digits(n / base, base)[0];
    } else {
      assert s[..0] == [];
    }
  }

  // ================================================================ IPv4

  lemma JoinFour(x: string, y: string, z: string, w: string, sep: char)
    ensures Join([x, y, z, w], sep) == x + [sep] + (y + [sep] + (z + [sep] + w))
  {
    assert [x, y, z, w][1..] == [y, z, w] && [y, z, w][1..] == [z, w] && [z, w][1..] == [w];
    assert Join([w], sep) == w && Join([z, w], sep) == z + [sep] + w;
    assert Join([y, z, w], sep) == y + [sep] + Join([z, w], sep);
  }

  /** An IPv4 address prints as its four bytes in decimal, in order, between dots. */
  lemma DottedForm(ip: IP)
    requires |Canonical(ip)| == 4
    ensures var c := Canonical(ip);
            Text(ip) == Digits(c[0], 10) + "." + Digits(c[1], 10) + "." + Digits(c[2], 10) + "." + Digits(c[3], 10)
  {
    var c := Canonical(ip);
    var x, y, z, w := Digits(c[0], 10), Digits(c[1], 10), Digits(c[2], 10), Digits(c[3], 10);
    assert AllDigits(c, 10) == [x, y, z, w];
    JoinFour(x, y, z, w, '.');
    assert x + "." + y + "." + z + "." + w == x + ['.'] + (y + ['.'] + (z + ['.'] + w));
  }

  /** Which byte slices are IPv4 addresses: four bytes, or sixteen of which the first ten are
      zero and the next two all ones. */
  lemma V4Form(ip: IP)
    ensures |Canonical(ip)| == 4 <==>
            |ip| == 4 || (|ip| == 16 && (forall i | 0 <= i < 10 :: ip[i] == 0) && ip[10] == ip[11] == 255)
    ensures |ip| == 16 && |Canonical(ip)| == 4 ==> Canonical(ip) == ip[12..]
  {
    if |ip| == 16 {
      assert forall i | 0 <= i < 12 :: ip[..12][i] == ip[i];
    }
  }

  // ================================================================ IPv6

  /** A stretch of zero groups. */
  ghost predicate Zeros(g: seq<nat>, p: nat, q: nat) {
    p <= q <= |g| && forall k | p <= k < q :: g[k] == 0
  }

  /** `run` is `best`, or a longer stretch from `i` on; nothing from `i` on is longer than
      it, or as long and further left. */
  ghost predicate FirstLongest(g: seq<nat>, i: nat, best: (nat, nat), run: (nat, nat))
    requires best.0 <= best.1 && run.0 <= run.1
  {
    && (run == best || (i <= run.0 && run.1 - run.0 >= 2 && run.1 - run.0 > best.1 - best.0))
    && forall p: nat, q: nat | i <= p && p + 2 <= q && Zeros(g, p, q) ::
         q - p <= run.1 - run.0 && (q - p == run.1 - run.0 && run != best ==> run.0 <= p)
  }

  lemma ZerosStopAt(g: seq<nat>, p: nat, q: nat)
    requires Zeros(g, p, q)
    ensures q <= ZerosFrom(g, p)
  {
    var j := ZerosFrom(g, p);
    assert j == |g| || g[j] != 0;
  }

  lemma {:induction false} LongestRunIsFirst(g: seq<nat>, i: nat, best: (nat, nat))
    requires i <= |g| && best.0 <= best.1 <= |g|
    requires forall k | best.0 <= k < best.1 :: g[k] == 0
    ensures FirstLongest(g, i, best, LongestZeroRun(g, i, best))
    decreases |g| - i
  {
    if i < |g| {
      var j := ZerosFrom(g, i);
      var run := LongestZeroRun(g, i, best);
      var next := if j - i >= 2 && j - i > best.1 - best.0 then (i, j) else best;
      LongestRunIsFirst(g, i + 1, next);
      assert run == LongestZeroRun(g, i + 1, next);
      forall p: nat, q: nat | i <= p && p + 2 <= q && Zeros(g, p, q)
        ensures q - p <= run.1 - run.0 && (q - p == run.1 - run.0 && run != best ==> run.0 <= p)
      {
        if p == i {
          ZerosStopAt(g, i, q);
        }
      }
    }
  }

  /** The numbers between colons. */
  ghost function Numbers(s: string): seq<int> {
    if s == [] then [] else
      var pieces := Split(s, ':');
      seq(|pieces|, i requires 0 <= i < |pieces| => NumberIn(pieces[i], 16))
  }

  ghost predicate Numerals(s: string) {
    s == [] || forall piece | piece in Split(s, ':') :: Numeral(piece, 16)
  }

  lemma AllDigitsAreNumerals(ns: seq<nat>)
    ensures FreeOf(AllDigits(ns, 16), ':')
    ensures forall i | 0 <= i < |ns| :: Numeral(AllDigits(ns, 16)[i], 16) && NumberIn(AllDigits(ns, 16)[i], 16) == ns[i]
  {
    forall i | 0 <= i < |ns|
      ensures ':' !in AllDigits(ns, 16)[i]
      ensures Numeral(AllDigits(ns, 16)[i], 16) && NumberIn(AllDigits(ns, 16)[i], 16) == ns[i]
    {
      DigitsReadBack(ns[i], 16);
    }
  }

  lemma JoinedNumbers(ns: seq<nat>)
    ensures Numbers(Join(AllDigits(ns, 16), ':')) == ns && Numerals(Join(AllDigits(ns, 16), ':'))
  {
    var parts := AllDigits(ns, 16);
    AllDigitsAreNumerals(ns);
    if ns != [] {
      SplitJoin(parts, ':');
      JoinIsNotEmpty(parts);
    }
  }

  lemma JoinIsNotEmpty(parts: seq<string>)
    requires parts != [] && parts[0] != []
    ensures Join(parts, ':') != []
  {
  }

  /** Any other 16-byte address prints as its groups in hexadecimal, in order, between colons;
      of the longest stretches of two or more zero groups the first is left out, and "::"
      stands for it. */
  lemma ColonForm(ip: IP) returns (start: nat, end: nat, before: string, after: string)
    requires |Canonical(ip)| == 16
    ensures end - start != 1 && Zeros(Groups(ip), start, end)
    ensures forall p: nat, q: nat | p + 2 <= q && Zeros(Groups(ip), p, q) ::
              q - p < end - start || (q - p == end - start && start <= p)
    ensures Numerals(before) && Numerals(after)
    ensures start == end ==> Text(ip) == before && Numbers(before) == Groups(ip)
    ensures start < end ==> Text(ip) == before + "::" + after
    ensures start < end ==> Numbers(before) == Groups(ip)[..start] && Numbers(after) == Groups(ip)[end..]
  {
    var g := Groups(ip);
    var run := LongestZeroRun(g, 0, (0, 0));
    LongestRunIsFirst(g, 0, (0, 0));
    start, end := run.0, run.1;
    if start == end {
      before, after := Text(ip), "";
      JoinedNumbers(g);
    } else {
      before, after := Join(AllDigits(g[..start], 16), ':'), Join(AllDigits(g[end..], 16), ':');
      JoinedNumbers(g[..start]);
      JoinedNumbers(g[end..]);
    }
  }

  // ---------------------------------------------------------------- where "::" stands

  ghost predicate HasDoubleColon(s: string) {
    exists i | 0 <= i < |s| - 1 :: s[i] == ':' && s[i + 1] == ':'
  }

  lemma {:induction false} DoubleColonSplits(s: string, i: nat) returns (k: nat)
    requires i + 1 < |s| && s[i] == ':' && s[i + 1] == ':'
    ensures 0 < k < |Split(s, ':')| && Split(s, ':')[k] == []
  {
    if i == 0 {
      k := 1;
    } else {
      k := DoubleColonSplits(s[1..], i - 1);
      if s[0] == ':' {
        k := k + 1;
      }
    }
  }

  lemma AdjacentZeros(g: seq<nat>)
    requires |g| == 8
    ensures var run := LongestZeroRun(g, 0, (0, 0));
            run.0 < run.1 <==> exists k | 0 <= k < 7 :: g[k] == 0 && g[k + 1] == 0
  {
    var run := LongestZeroRun(g, 0, (0, 0));
    LongestRunIsFirst(g, 0, (0, 0));
    if run.0 < run.1 {
      assert g[run.0] == 0 && g[run.0 + 1] == 0;
    }
    if k :| 0 <= k < 7 && g[k] == 0 && g[k + 1] == 0 {
      assert Zeros(g, k, k + 2);
    }
  }

  lemma ColonsDoubleColon(ip: IP)
    requires |ip| == 16
    ensures var run := LongestZeroRun(Groups(ip), 0, (0, 0)); HasDoubleColon(Colons(ip)) <==> run.0 < run.1
  {
    var s, g := Colons(ip), Groups(ip);
    var run := LongestZeroRun(g, 0, (0, 0));
    EmptyPiece(ip);
    if HasDoubleColon(s) {
      var i :| 0 <= i < |s| - 1 && s[i] == ':' && s[i + 1] == ':';
      var k := DoubleColonSplits(s, i);
    }
    if run.0 < run.1 {
      var before := Join(AllDigits(g[..run.0], 16), ':');
      assert s[|before|] == ':' && s[|before| + 1] == ':';
    }
  }

  /** "::" occurs exactly when two adjacent groups are zero. */
  lemma DoubleColonIffAdjacentZeros(ip: IP)
    requires |Canonical(ip)| == 16
    ensures HasDoubleColon(Text(ip)) <==> exists k | 0 <= k < 7 :: Groups(ip)[k] == 0 && Groups(ip)[k + 1] == 0
  {
    ColonsDoubleColon(ip);
    AdjacentZeros(Groups(ip));
  }

  // ================================================================ anything else

  lemma {:induction false} HexPairs(ip: IP)
    ensures |HexBytes(ip)| == 2 * |ip|
    ensures forall i | 0 <= i < |ip| ::
              DigitValue(HexBytes(ip)[2 * i]) * 16 + DigitValue(HexBytes(ip)[2 * i + 1]) == ip[i]
  {
    if ip != [] {
      HexPairs(ip[1..]);
      var s, rest := HexBytes(ip), HexBytes(ip[1..]);
      forall i | 0 <= i < |ip| ensures DigitValue(s[2 * i]) * 16 + DigitValue(s[2 * i + 1]) == ip[i] {
        if i > 0 {
          assert s[2 * i] == rest[2 * (i - 1)] && s[2 * i + 1] == rest[2 * (i - 1) + 1];
          assert ip[1..][i - 1] == ip[i];
        }
      }
    }
  }

  /** The empty slice prints as "<nil>", a slice of any other length as a question mark and
      its bytes, two hexadecimal digits each. */
  lemma OddForm(ip: IP)
    ensures Text(ip) == "<nil>" <==> ip == []
    ensures ip != [] && |ip| != 4 && |ip| != 16 ==>
              && |Text(ip)| == 2 * |ip| + 1 && Text(ip)[0] == '?'
              && forall i | 0 <= i < |ip| ::
                   DigitValue(Text(ip)[2 * i + 1]) * 16 + DigitValue(Text(ip)[2 * i + 2]) == ip[i]
  {
    TextForm(ip);
    if ip != [] && |ip| != 4 && |ip| != 16 {
      HexPairs(ip);
      var s := HexBytes(ip);
      assert Text(ip) == "?" + s;
      forall i | 0 <= i < |ip|
        ensures DigitValue(Text(ip)[2 * i + 1]) * 16 + DigitValue(Text(ip)[2 * i + 2]) == ip[i]
      {
        assert Text(ip)[2 * i + 1] == s[2 * i] && Text(ip)[2 * i + 2] == s[2 * i + 1];
      }
    } else if Text(ip) == "<nil>" {
      assert Text(ip)[0] == '<';
    }
  }
}
