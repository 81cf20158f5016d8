/**
 * The validated backend address of src/server/socket_address.rs: an IPv4
 * string checked against `^(\d{1,3}\.){3}\d{1,3}$` and a per-octet bound,
 * a port string checked by an `i32` parse and an upper bound, and the
 * `ip:port` rendering.
 */
module Addresses {
  import opened Wrappers

  const IPV4_ERROR: string := "Invalid IPv4 address"
  const PORT_NUMBER_ERROR: string := "Invalid Port Number"

  /** The range of Rust's `i32`, which both `parse` calls target. */
  const I32_MIN: int := -0x8000_0000
  const I32_MAX: int := 0x7fff_ffff
  /** `1 << 16`: the first rejected port number. */
  const PORT_LIMIT: int := 0x1_0000

  /** The tuple struct `SocketAddress(String, String)`; its two fields are `get_ipv4` and `get_port_number`. */
  datatype SocketAddress = SocketAddress(ipv4: string, port: string) {
    /** `get` (and `Display`): the address rendered as `ipv4:port`. */
    function Get(): (r: string)
      ensures |r| == |ipv4| + 1 + |port|
      ensures r[..|ipv4|] == ipv4 && r[|ipv4|] == ':' && r[|ipv4| + 1..] == port
    {
      ipv4 + ":" + port
    }
  }

  // ---------------------------------------------------------------------
  // Digits and decimal values

  predicate IsDigit(c: char) {
    '0' <= c <= '9'
  }

  predicate AllDigits(s: string) {
    forall i :: 0 <= i < |s| ==> IsDigit(s[i])
  }

  function DigitValue(c: char): (v: nat)
    requires IsDigit(c)
    ensures v < 10
  {
    (c as int) - ('0' as int)
  }

  /** The value of a string of decimal digits, read most significant first. */
  function DigitsValue(s: string): nat
    requires AllDigits(s)
  {
    if s == [] then 0 else DigitsValue(s[..|s| - 1]) * 10 + DigitValue(s[|s| - 1])
  }

  function DigitChar(d: nat): (c: char)
    requires d < 10
    ensures IsDigit(c) && DigitValue(c) == d
  {
    ('0' as int + d) as char
  }

  /** The shortest decimal rendering of `n`: the inverse of `DigitsValue`. */
  function Decimal(n: nat): (s: string)
    ensures 1 <= |s| && AllDigits(s)
  {
    if n < 10 then [DigitChar(n)] else Decimal(n / 10) + [DigitChar(n % 10)]
  }

  // ---------------------------------------------------------------------
  // The regular expression ^(\d{1,3}\.){3}\d{1,3}$

  /** The number of decimal digits at the start of `s`. */
  function LeadingDigits(s: string): (d: nat)
    ensures d <= |s|
  {
    if s != [] && IsDigit(s[0]) then 1 + LeadingDigits(s[1..]) else 0
  }

  /**
   * `s` matches `(\d{1,3}\.){dots}\d{1,3}` in full. A group of digits must stop
   * at a dot, so the matcher never needs to backtrack.
   */
  predicate MatchesGroups(s: string, dots: nat)
    decreases dots
  {
    var d := LeadingDigits(s);
    && 1 <= d <= 3
    && if dots == 0 then d == |s|
       else d < |s| && s[d] == '.' && MatchesGroups(s[d + 1..], dots - 1)
  }

  /** `Regex::new(IPV4_REGEX).is_match(s)`, with `\d` read as an ASCII digit. */
  predicate MatchesIpv4Regex(s: string): (r: bool)
    ensures r <==> |Split(s)| == 4 && AllDigitGroups(Split(s))
  {
    MatchesGroupsIffSplit(s, 3);
    MatchesGroups(s, 3)
  }

  // ---------------------------------------------------------------------
  // str::split(".") and str::parse::<i32>()

  /** Rust's `s.split(".")`: the pieces between dots, empty pieces included. */
  function Split(s: string): (groups: seq<string>)
    ensures |groups| >= 1
    ensures forall k :: 0 <= k < |groups| ==> '.' !in groups[k]
  {
    if s == [] then [""]
    else if s[0] == '.' then [""] + Split(s[1..])
    else
      var rest := Split(s[1..]);
      [[s[0]] + rest[0]] + rest[1..]
  }

  /** The pieces joined back together with dots. */
  function Join(groups: seq<string>): string
    requires |groups| >= 1
  {
    if |groups| == 1 then groups[0] else groups[0] + "." + Join(groups[1..])
  }

  /**
   * Rust's `str::parse::<i32>`: an optional `+` or `-`, then one or more ASCII
   * digits whose signed value fits in an `i32`.
   */
  function ParseI32(s: string): (r: Option<int>)
    ensures r.Some? ==> I32_MIN <= r.value <= I32_MAX
  {
    if s == [] then None
    else
      var negative := s[0] == '-';
      var digits := if s[0] == '+' || s[0] == '-' then s[1..] else s;
      if digits == [] || !AllDigits(digits) then None
      else
        var magnitude: int := DigitsValue(digits);
        var v := if negative then -magnitude else magnitude;
        if I32_MIN <= v <= I32_MAX then Some(v) else None
  }

  /** The `for byte in bytes_splitted` loop: every piece parses and is at most 255. */
  predicate OctetsInRange(groups: seq<string>): (r: bool)
    ensures r <==> forall k :: 0 <= k < |groups| ==> ParseI32(groups[k]).Some? && ParseI32(groups[k]).value <= 255
  {
    if groups == [] then true
    else match ParseI32(groups[0])
      case None => false
      case Some(n) => n <= 255 && OctetsInRange(groups[1..])
  }

  /** `SocketAddress::new`: the address is checked before the port. */
  function New(ipv4: string, portNumber: string): (r: Result<SocketAddress, string>)
    ensures r.Ok? ==> r.value.ipv4 == ipv4 && r.value.port == portNumber
    ensures r.Err? ==> r.error == IPV4_ERROR || r.error == PORT_NUMBER_ERROR
    ensures !MatchesIpv4Regex(ipv4) ==> r == Err(IPV4_ERROR)
  {
    if !MatchesIpv4Regex(ipv4) then Err(IPV4_ERROR)
    else if !OctetsInRange(Split(ipv4)) then Err(IPV4_ERROR)
    else match ParseI32(portNumber)
      case None => Err(PORT_NUMBER_ERROR)
      case Some(n) => if n >= PORT_LIMIT then Err(PORT_NUMBER_ERROR) else Ok(SocketAddress(ipv4, portNumber))
  }

  // ---------------------------------------------------------------------
  // Reference definitions

  /** A group of one to three decimal digits. */
  predicate IsDigitGroup(g: string) {
    1 <= |g| <= 3 && AllDigits(g)
  }

  /** Every piece is a digit group. */
  predicate AllDigitGroups(groups: seq<string>) {
    forall k :: 0 <= k < |groups| ==> IsDigitGroup(groups[k])
  }

  /** A dotted quad: four dot-separated digit groups, each of value at most 255. */
  predicate IsDottedQuad(s: string) {
    var groups := Split(s);
    |groups| == 4 && forall k :: 0 <= k < 4 ==> IsDigitGroup(groups[k]) && DigitsValue(groups[k]) <= 255
  }

  /** A port accepted by `new`: an `i32` below 65536; no lower bound is checked. */
  predicate IsPortNumber(p: string) {
    var n := ParseI32(p);
    n.Some? && n.value < PORT_LIMIT
  }

  /** The four octets rendered in decimal and joined with dots. */
  function DottedQuad(a: nat, b: nat, c: nat, d: nat): string {
    Decimal(a) + "." + (Decimal(b) + "." + (Decimal(c) + "." + Decimal(d)))
  }

  /** The inverse of `Get`: split a rendered address at its first colon. */
  function HostAndPort(s: string): (string, string) {
    if s == [] then ("", "")
    else if s[0] == ':' then ("", s[1..])
    else var (h, p) := HostAndPort(s[1..]); ([s[0]] + h, p)
  }

  // ---------------------------------------------------------------------
  // Lemmas: the split and the regular expression

  /** Rust's split, piece by piece: the first piece is the text up to the first dot. */
  lemma {:induction false} SplitHead(s: string)
    ensures var r := Split(s);
      && |r[0]| <= |s| && r[0] == s[..|r[0]|]
      && (|r| == 1 ==> r[0] == s)
      && (|r| > 1 ==> |r[0]| < |s| && s[|r[0]|] == '.' && r[1..] == Split(s[|r[0]| + 1..]))
  {
    if s != [] && s[0] != '.' {
      SplitHead(s[1..]);
      var rest := Split(s[1..]);
      assert Split(s)[1..] == rest[1..];
      if |rest| > 1 {
        assert s[|rest[0]| + 1 + 1..] == s[1..][|rest[0]| + 1..];
      }
    }
  }

  /** Splitting a dot-free piece followed by a dot peels that piece off. */
  lemma {:induction false} SplitAtDot(g: string, rest: string)
    requires '.' !in g
    ensures Split(g + "." + rest) == [g] + Split(rest)
  {
    if g != [] {
      assert (g + "." + rest)[1..] == g[1..] + "." + rest;
      SplitAtDot(g[1..], rest);
      assert [g[0]] + g[1..] == g;
    }
  }

  /** A dot-free string is a single piece. */
  lemma {:induction false} SplitNoDot(g: string)
    requires '.' !in g
    ensures Split(g) == [g]
  {
    if g != [] {
      SplitNoDot(g[1..]);
      assert [g[0]] + g[1..] == g;
    }
  }

  /** Joining the pieces with dots gives back the string. */
  lemma {:induction false} JoinSplit(s: string)
    ensures Join(Split(s)) == s
    decreases |s|
  {
    SplitHead(s);
    var r := Split(s);
    if |r| > 1 {
      var k := |r[0]|;
      JoinSplit(s[k + 1..]);
      assert r[1..][0] == r[1];
      assert s == s[..k] + "." + s[k + 1..];
    }
  }

  /** The leading run is all digits, and it stops at the end or at a character that is not a digit. */
  lemma {:induction false} LeadingDigitsRun(s: string)
    ensures var d := LeadingDigits(s);
            AllDigits(s[..d]) && (d < |s| ==> !IsDigit(s[d]))
  {
    if s != [] && IsDigit(s[0]) {
      LeadingDigitsRun(s[1..]);
      var d := LeadingDigits(s[1..]);
      assert s[..d + 1] == [s[0]] + s[1..][..d];
    }
  }

  /** A run of `k` digits that is not followed by a digit is exactly the leading run. */
  lemma {:induction false} LeadingDigitsIs(s: string, k: nat)
    requires k <= |s| && AllDigits(s[..k])
    requires k < |s| ==> !IsDigit(s[k])
    ensures LeadingDigits(s) == k
  {
    if k > 0 {
      assert s[1..][..k - 1] == s[..k][1..];
      LeadingDigitsIs(s[1..], k - 1);
    }
  }

  /** A leading run of one to three digits is a dot-free digit group. */
  lemma LeadingGroup(s: string)
    requires 1 <= LeadingDigits(s) <= 3
    ensures IsDigitGroup(s[..LeadingDigits(s)]) && '.' !in s[..LeadingDigits(s)]
  {
    var g := s[..LeadingDigits(s)];
    LeadingDigitsRun(s);
    forall i | 0 <= i < |g| ensures g[i] != '.' {
      assert IsDigit(g[i]);
    }
  }

  /** What follows the first group and its dot, in a string the matcher accepts with dots left. */
  function AfterGroup(s: string, dots: nat): (tail: string)
    requires MatchesGroups(s, dots) && dots > 0
    ensures |tail| < |s|
  {
    s[LeadingDigits(s) + 1..]
  }

  /** What follows the first group matches the remaining groups. */
  lemma AfterGroupMatches(s: string, dots: nat)
    requires MatchesGroups(s, dots) && dots > 0
    ensures MatchesGroups(AfterGroup(s, dots), dots - 1)
  {
  }

  /** The groups after the first: none for the last group, else the split of what follows the dot. */
  function RestGroups(s: string, dots: nat): seq<string>
    requires MatchesGroups(s, dots)
  {
    if dots == 0 then [] else Split(AfterGroup(s, dots))
  }

  /** The first group of a matched string is split off at the dot after it. */
  lemma MatchesGroupsHead(s: string, dots: nat)
    requires MatchesGroups(s, dots)
    ensures IsDigitGroup(s[..LeadingDigits(s)])
    ensures Split(s) == [s[..LeadingDigits(s)]] + RestGroups(s, dots)
  {
    LeadingGroup(s);
    if dots == 0 {
      LastGroup(s);
    } else {
      SplitAfterPiece(s, LeadingDigits(s));
    }
  }

  /** The last group is the whole string. */
  lemma LastGroup(s: string)
    requires MatchesGroups(s, 0)
    ensures Split(s) == [s[..LeadingDigits(s)]]
  {
    LeadingGroup(s);
    assert s[..LeadingDigits(s)] == s;
    SplitNoDot(s);
  }

  /** A dot-free piece followed by a dot is split off from the rest. */
  lemma SplitAfterPiece(s: string, d: nat)
    requires d < |s| && s[d] == '.' && '.' !in s[..d]
    ensures Split(s) == [s[..d]] + Split(s[d + 1..])
  {
    assert s == s[..d] + "." + s[d + 1..];
    SplitAtDot(s[..d], s[d + 1..]);
  }

  /** A matched string splits into `dots + 1` digit groups. */
  lemma {:induction false} MatchesGroupsSplit(s: string, dots: nat)
    requires MatchesGroups(s, dots)
    ensures |Split(s)| == dots + 1 && AllDigitGroups(Split(s))
    decreases dots
  {
    MatchesGroupsHead(s, dots);
    var rest := RestGroups(s, dots);
    if dots > 0 {
      AfterGroupMatches(s, dots);
      MatchesGroupsSplit(AfterGroup(s, dots), dots - 1);
    } else {
      assert rest == [];
    }
    AllDigitGroupsCons(Split(s), s[..LeadingDigits(s)], rest);
  }

  /** One more digit group in front keeps every piece a digit group. */
  lemma AllDigitGroupsCons(groups: seq<string>, g: string, rest: seq<string>)
    requires groups == [g] + rest && IsDigitGroup(g) && AllDigitGroups(rest)
    ensures |groups| == |rest| + 1 && AllDigitGroups(groups)
  {
    forall k | 0 <= k < |groups| ensures IsDigitGroup(groups[k]) {
      if k > 0 { assert groups[k] == rest[k - 1]; }
    }
  }

  /** When every piece is a digit group, the first piece is the leading run of digits and the rest split off after it. */
  lemma FirstGroup(s: string)
    requires AllDigitGroups(Split(s))
    ensures var r := Split(s);
      && LeadingDigits(s) == |r[0]| && 1 <= |r[0]| <= 3
      && (|r| == 1 ==> |r[0]| == |s|)
      && (|r| > 1 ==> |r[0]| < |s| && s[|r[0]|] == '.' && Split(s[|r[0]| + 1..]) == r[1..] && AllDigitGroups(r[1..]))
  {
    SplitHead(s);
    var r := Split(s);
    LeadingDigitsIs(s, |r[0]|);
    forall k | 0 <= k < |r[1..]| ensures IsDigitGroup(r[1..][k]) {
      assert r[1..][k] == r[k + 1];
    }
  }

  /** Conversely, `dots + 1` digit groups pass the matcher. */
  lemma {:induction false} SplitMatchesGroups(s: string, dots: nat)
    requires |Split(s)| == dots + 1 && AllDigitGroups(Split(s))
    ensures MatchesGroups(s, dots)
    decreases dots
  {
    FirstGroup(s);
    var r, d := Split(s), LeadingDigits(s);
    if dots > 0 {
      var tail := s[d + 1..];
      assert Split(tail) == r[1..];
      SplitMatchesGroups(tail, dots - 1);
      assert d < |s| && s[d] == '.' && MatchesGroups(tail, dots - 1);
    }
  }

  /**
   * The matcher accepts `(\d{1,3}\.){dots}\d{1,3}` exactly when the split gives
   * `dots + 1` pieces, each one to three digits.
   */
  lemma MatchesGroupsIffSplit(s: string, dots: nat)
    ensures MatchesGroups(s, dots) <==> |Split(s)| == dots + 1 && AllDigitGroups(Split(s))
  {
    if MatchesGroups(s, dots) {
      MatchesGroupsSplit(s, dots);
    }
    if |Split(s)| == dots + 1 && AllDigitGroups(Split(s)) {
      SplitMatchesGroups(s, dots);
    }
  }

  /** Only digits and dots can pass the matcher. */
  lemma {:induction false} MatchesGroupsAlphabet(s: string, dots: nat)
    requires MatchesGroups(s, dots)
    ensures forall i :: 0 <= i < |s| ==> IsDigit(s[i]) || s[i] == '.'
    decreases dots
  {
    var d := LeadingDigits(s);
    LeadingDigitsRun(s);
    forall i | 0 <= i < |s| ensures IsDigit(s[i]) || s[i] == '.' {
      if i < d {
        assert s[..d][i] == s[i];
      } else if i > d {
        MatchesGroupsAlphabet(s[d + 1..], dots - 1);
        assert s[d + 1..][i - d - 1] == s[i];
      }
    }
  }

  // ---------------------------------------------------------------------
  // Lemmas: decimal values and the i32 parse

  function Pow10(k: nat): (p: nat)
    ensures p >= 1
  {
    if k == 0 then 1 else 10 * Pow10(k - 1)
  }

  /** A string of `k` digits has a value below `10^k`. */
  lemma {:induction false} DigitsValueBelow(s: string)
    requires AllDigits(s)
    ensures DigitsValue(s) < Pow10(|s|)
  {
    if s != [] {
      DigitsValueBelow(s[..|s| - 1]);
    }
  }

  /** A digit group parses to its decimal value: no sign, and at most 999. */
  lemma DigitGroupParses(g: string)
    requires IsDigitGroup(g)
    ensures ParseI32(g) == Some(DigitsValue(g))
  {
    DigitsValueBelow(g);
    assert Pow10(|g|) <= 1000;
  }

  /** On digit groups the octet loop accepts exactly when every value is at most 255. */
  lemma {:induction false} OctetsInRangeIff(groups: seq<string>)
    requires AllDigitGroups(groups)
    ensures OctetsInRange(groups) <==> forall k :: 0 <= k < |groups| ==> DigitsValue(groups[k]) <= 255
  {
    if groups != [] {
      DigitGroupParses(groups[0]);
      assert forall k :: 0 <= k < |groups| - 1 ==> groups[1..][k] == groups[k + 1];
      OctetsInRangeIff(groups[1..]);
    }
  }

  /** `Decimal` renders the number back: it is the inverse of `DigitsValue`. */
  lemma {:induction false} DecimalValue(n: nat)
    ensures DigitsValue(Decimal(n)) == n
  {
    if n >= 10 {
      DecimalValue(n / 10);
      var s := Decimal(n);
      assert s[..|s| - 1] == Decimal(n / 10);
    }
  }

  /** An octet renders in one to three digits. */
  lemma DecimalOctetLength(n: nat)
    requires n < 1000
    ensures |Decimal(n)| <= 3
  {
    if n >= 10 {
      assert |Decimal(n)| == |Decimal(n / 10)| + 1;
      if n / 10 >= 10 {
        assert |Decimal(n / 10)| == |Decimal(n / 10 / 10)| + 1;
        assert n / 10 / 10 < 10;
      }
    }
  }

  /**
   * The decimal rendering of `n`, bare or after a `+`, parses back to `n`
   * exactly when `n` fits an `i32`; after a `-` it parses to `-n` exactly when
   * that fits, which takes in `I32_MIN` itself.
   */
  lemma ParseDecimal(n: nat)
    ensures ParseI32(Decimal(n)) == if n <= I32_MAX then Some(n) else None
    ensures ParseI32("+" + Decimal(n)) == if n <= I32_MAX then Some(n) else None
    ensures ParseI32("-" + Decimal(n)) == if -(n as int) >= I32_MIN then Some(-(n as int)) else None
  {
    DecimalValue(n);
    assert IsDigit(Decimal(n)[0]);
    assert ("+" + Decimal(n))[1..] == Decimal(n);
    assert ("-" + Decimal(n))[1..] == Decimal(n);
  }

  // ---------------------------------------------------------------------
  // Lemmas: what `new` accepts

  /**
   * `new` succeeds exactly on a dotted quad and a port accepted by the `i32`
   * bound; an address error is reported whatever the port, and a port error
   * only for a good address.
   */
  lemma NewAccepts(ipv4: string, portNumber: string)
    ensures New(ipv4, portNumber).Ok? <==> IsDottedQuad(ipv4) && IsPortNumber(portNumber)
    ensures New(ipv4, portNumber) == Err(IPV4_ERROR) <==> !IsDottedQuad(ipv4)
    ensures New(ipv4, portNumber) == Err(PORT_NUMBER_ERROR) <==> IsDottedQuad(ipv4) && !IsPortNumber(portNumber)
  {
    var groups := Split(ipv4);
    if |groups| == 4 && AllDigitGroups(groups) {
      OctetsInRangeIff(groups);
    }
  }

  /** The decimal rendering of an octet is a dot-free digit group of value at most 255. */
  lemma OctetPiece(x: nat)
    requires x <= 255
    ensures '.' !in Decimal(x) && IsDigitGroup(Decimal(x)) && DigitsValue(Decimal(x)) <= 255
  {
    DecimalOctetLength(x);
    DecimalValue(x);
    var s := Decimal(x);
    assert forall i :: 0 <= i < |s| ==> IsDigit(s[i]);
  }

  /** Four dot-free pieces joined with dots split back into those pieces. */
  lemma SplitFour(a: string, b: string, c: string, d: string)
    requires '.' !in a && '.' !in b && '.' !in c && '.' !in d
    ensures Split(a + "." + (b + "." + (c + "." + d))) == [a, b, c, d]
  {
    var cd := c + "." + d;
    var bcd := b + "." + cd;
    SplitNoDot(d);
    SplitAtDot(c, d);
    SplitAtDot(b, cd);
    SplitAtDot(a, bcd);
    assert [a] + ([b] + ([c] + [d])) == [a, b, c, d];
  }

  /** A rendered dotted quad splits into its four renderings. */
  lemma SplitDottedQuad(a: nat, b: nat, c: nat, d: nat)
    requires a <= 255 && b <= 255 && c <= 255 && d <= 255
    ensures Split(DottedQuad(a, b, c, d)) == [Decimal(a), Decimal(b), Decimal(c), Decimal(d)]
  {
    OctetPiece(a); OctetPiece(b); OctetPiece(c); OctetPiece(d);
    SplitFour(Decimal(a), Decimal(b), Decimal(c), Decimal(d));
  }

  /** A rendered dotted quad of octets 0..255 is a dotted quad. */
  lemma DottedQuadIsQuad(a: nat, b: nat, c: nat, d: nat)
    requires a <= 255 && b <= 255 && c <= 255 && d <= 255
    ensures IsDottedQuad(DottedQuad(a, b, c, d))
  {
    SplitDottedQuad(a, b, c, d);
    OctetPiece(a); OctetPiece(b); OctetPiece(c); OctetPiece(d);
  }

  /** The plain decimal rendering of any four octets and of any port 0..65535 is accepted and stored verbatim. */
  lemma AcceptsEveryDottedQuad(a: nat, b: nat, c: nat, d: nat, port: nat)
    requires a <= 255 && b <= 255 && c <= 255 && d <= 255 && port < PORT_LIMIT
    ensures New(DottedQuad(a, b, c, d), Decimal(port)) == Ok(SocketAddress(DottedQuad(a, b, c, d), Decimal(port)))
  {
    var s := DottedQuad(a, b, c, d);
    DottedQuadIsQuad(a, b, c, d);
    ParseDecimal(port);
    NewAccepts(s, Decimal(port));
  }

  // ---------------------------------------------------------------------
  // Lemmas: the rendering

  /** A colon-free host is recovered, with the port, from the rendering. */
  lemma {:induction false} GetParsesBack(a: SocketAddress)
    requires ':' !in a.ipv4
    ensures HostAndPort(a.Get()) == (a.ipv4, a.port)
    decreases |a.ipv4|
  {
    if a.ipv4 != [] {
      var rest := SocketAddress(a.ipv4[1..], a.port);
      GetParsesBack(rest);
      assert a.Get()[1..] == rest.Get();
      assert [a.ipv4[0]] + a.ipv4[1..] == a.ipv4;
    } else {
      assert a.Get()[1..] == a.port;
    }
  }

  /** The rendering of an accepted address splits back into the two strings given to `new`. */
  lemma NewGetRoundTrip(ipv4: string, portNumber: string)
    requires New(ipv4, portNumber).Ok?
    ensures HostAndPort(New(ipv4, portNumber).value.Get()) == (ipv4, portNumber)
  {
    MatchesGroupsAlphabet(ipv4, 3);
    GetParsesBack(SocketAddress(ipv4, portNumber));
  }
}
