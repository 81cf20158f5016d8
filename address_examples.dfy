/** The cases of src/tests/socket_address_test.rs, as consequences of `NewAccepts`. */
module AddressExamples {
  import opened Wrappers
  import opened Addresses

  lemma LoopbackQuad() ensures IsDottedQuad("127.0.0.1") {
    assert Decimal(1) == "1" && Decimal(12) == "12" && Decimal(127) == "127" && Decimal(0) == "0";
    assert "127.0.0.1" == DottedQuad(127, 0, 0, 1);
    DottedQuadIsQuad(127, 0, 0, 1);
  }

  lemma NineQuad() ensures IsDottedQuad("9.0.0.1") {
    assert "9.0.0.1" == DottedQuad(9, 0, 0, 1);
    DottedQuadIsQuad(9, 0, 0, 1);
  }

  lemma OnesQuad() ensures IsDottedQuad("1.1.1.1") {
    assert "1.1.1.1" == DottedQuad(1, 1, 1, 1);
    DottedQuadIsQuad(1, 1, 1, 1);
  }

  lemma GoodQuads()
    ensures IsDottedQuad("127.0.0.1") && IsDottedQuad("9.0.0.1") && IsDottedQuad("1.1.1.1")
  {
    LoopbackQuad();
    NineQuad();
    OnesQuad();
  }

  /** Four dot-free pieces, one of which is not an octet, never make a dotted quad. */
  lemma QuadWithBadGroup(a: string, b: string, c: string, d: string, k: nat)
    requires '.' !in a && '.' !in b && '.' !in c && '.' !in d
    requires k < 4
    requires var g := [a, b, c, d][k]; !IsDigitGroup(g) || DigitsValue(g) > 255
    ensures !IsDottedQuad(a + "." + (b + "." + (c + "." + d)))
  {
    SplitFour(a, b, c, d);
  }

  lemma Value256() ensures IsDigitGroup("256") && DigitsValue("256") == 256 {
    assert Decimal(2) == "2" && Decimal(25) == "25" && Decimal(256) == "256";
    DecimalValue(256);
  }

  lemma Value300() ensures IsDigitGroup("300") && DigitsValue("300") == 300 {
    assert Decimal(3) == "3" && Decimal(30) == "30" && Decimal(300) == "300";
    DecimalValue(300);
  }

  lemma OverflowQuad256() ensures !IsDottedQuad("256.256.256.256") {
    Value256();
    assert "256.256.256.256" == "256" + "." + ("256" + "." + ("256" + "." + "256"));
    QuadWithBadGroup("256", "256", "256", "256", 0);
  }

  lemma OverflowQuad300() ensures !IsDottedQuad("300.12.1.999") {
    Value300();
    assert "300.12.1.999" == "300" + "." + ("12" + "." + ("1" + "." + "999"));
    QuadWithBadGroup("300", "12", "1", "999", 0);
  }

  lemma TrailingSpaceQuad() ensures !IsDottedQuad("127.0.0.1 ") {
    assert !IsDigit("1 "[1]);
    assert "127.0.0.1 " == "127" + "." + ("0" + "." + ("0" + "." + "1 "));
    QuadWithBadGroup("127", "0", "0", "1 ", 3);
  }

  /**
   * A first group that starts with something other than a digit (a space,
   * a sign) sinks the quad, whatever follows it.
   */
  lemma NonDigitLeadQuad(g: string)
    requires g != [] && !IsDigit(g[0]) && '.' !in g
    ensures !IsDottedQuad(g + ".0.0.1")
  {
    assert g + ".0.0.1" == g + "." + ("0" + "." + ("0" + "." + "1"));
    QuadWithBadGroup(g, "0", "0", "1", 0);
  }

  lemma LeadingSignOrSpaceQuads()
    ensures !IsDottedQuad(" 127.0.0.1") && !IsDottedQuad("-17.0.0.1")
  {
    NonDigitLeadQuad(" 127");
    assert " 127" + ".0.0.1" == " 127.0.0.1";
    NonDigitLeadQuad("-17");
    assert "-17" + ".0.0.1" == "-17.0.0.1";
  }

  lemma LongGroupQuad() ensures !IsDottedQuad("127.0000.0.1") {
    assert "127.0000.0.1" == "127" + "." + ("0000" + "." + ("0" + "." + "1"));
    QuadWithBadGroup("127", "0000", "0", "1", 1);
  }

  lemma EmptyGroupQuad() ensures !IsDottedQuad("127.0.0.") {
    assert "127.0.0." == "127" + "." + ("0" + "." + ("0" + "." + ""));
    QuadWithBadGroup("127", "0", "0", "", 3);
  }

  lemma ShortQuads() ensures !IsDottedQuad("127.0.0") && !IsDottedQuad("127") && !IsDottedQuad("test") {
    assert "127.0.0" == "127" + "." + ("0" + "." + "0");
    SplitAtDot("127", "0" + "." + "0");
    SplitAtDot("0", "0");
    SplitNoDot("0");
    SplitNoDot("127");
    SplitNoDot("test");
  }

  lemma LetterGroupQuads() ensures !IsDottedQuad("12.t") && !IsDottedQuad("1.t.t.1") {
    assert "12.t" == "12" + "." + "t";
    SplitAtDot("12", "t");
    SplitNoDot("t");
    assert !IsDigit("t"[0]);
    assert "1.t.t.1" == "1" + "." + ("t" + "." + ("t" + "." + "1"));
    QuadWithBadGroup("1", "t", "t", "1", 1);
  }

  lemma LargestPort() ensures IsPortNumber("65535") {
    assert Decimal(6) == "6" && Decimal(65) == "65" && Decimal(655) == "655" && Decimal(6553) == "6553" && Decimal(65535) == "65535";
    ParseDecimal(65535);
  }

  lemma OverLargePort() ensures !IsPortNumber("99999") {
    assert Decimal(9) == "9" && Decimal(99) == "99" && Decimal(999) == "999" && Decimal(9999) == "9999" && Decimal(99999) == "99999";
    ParseDecimal(99999);
  }

  lemma MuchOverLargePort() ensures !IsPortNumber("999998") {
    assert Decimal(9) == "9" && Decimal(99) == "99" && Decimal(999) == "999" && Decimal(9999) == "9999" && Decimal(99999) == "99999";
    assert Decimal(999998) == "999998";
    ParseDecimal(999998);
  }

  lemma UnsignedPorts()
    ensures IsPortNumber("65535") && IsPortNumber("1")
    ensures !IsPortNumber("99999") && !IsPortNumber("999998")
  {
    LargestPort();
    assert Decimal(1) == "1";
    ParseDecimal(1);
    OverLargePort();
    MuchOverLargePort();
  }

  lemma SignedPorts() ensures IsPortNumber("-1") && IsPortNumber("+80") {
    assert Decimal(1) == "1" && Decimal(8) == "8" && Decimal(80) == "80";
    DecimalValue(1);
    DecimalValue(80);
    assert "-1"[1..] == "1" && "+80"[1..] == "80";
  }

  lemma MalformedPort() ensures !IsPortNumber("1t") {
    assert !IsDigit("1t"[1]);
  }

  /** The accepted pairs of the tests, and signed ports, which no lower bound rejects. */
  lemma AcceptedExamples()
    ensures New("127.0.0.1", "65535").Ok? && New("9.0.0.1", "1").Ok?
    ensures New("127.0.0.1", "-1").Ok? && New("127.0.0.1", "+80").Ok?
  {
    GoodQuads();
    UnsignedPorts();
    SignedPorts();
    NewAccepts("127.0.0.1", "65535");
    NewAccepts("9.0.0.1", "1");
    NewAccepts("127.0.0.1", "-1");
    NewAccepts("127.0.0.1", "+80");
  }

  /** The rejected addresses of the tests: the address error, whatever the port. */
  lemma RejectedAddressExamples(port: string)
    ensures New("256.256.256.256", port) == Err(IPV4_ERROR)
    ensures New("300.12.1.999", port) == Err(IPV4_ERROR)
    ensures New("127.0.0.1 ", port) == Err(IPV4_ERROR)
    ensures New(" 127.0.0.1", port) == Err(IPV4_ERROR)
    ensures New("127.0000.0.1", port) == Err(IPV4_ERROR)
    ensures New("-17.0.0.1", port) == Err(IPV4_ERROR)
    ensures New("127.0.0.", port) == Err(IPV4_ERROR)
    ensures New("127.0.0", port) == Err(IPV4_ERROR)
    ensures New("127", port) == Err(IPV4_ERROR)
    ensures New("test", port) == Err(IPV4_ERROR)
    ensures New("12.t", port) == Err(IPV4_ERROR)
    ensures New("1.t.t.1", port) == Err(IPV4_ERROR)
  {
    OverflowQuad256(); OverflowQuad300(); TrailingSpaceQuad(); LeadingSignOrSpaceQuads(); LongGroupQuad();
    EmptyGroupQuad(); ShortQuads(); LetterGroupQuads();
    NewAccepts("256.256.256.256", port);
    NewAccepts("300.12.1.999", port);
    NewAccepts("127.0.0.1 ", port);
    NewAccepts(" 127.0.0.1", port);
    NewAccepts("127.0000.0.1", port);
    NewAccepts("-17.0.0.1", port);
    NewAccepts("127.0.0.", port);
    NewAccepts("127.0.0", port);
    NewAccepts("127", port);
    NewAccepts("test", port);
    NewAccepts("12.t", port);
    NewAccepts("1.t.t.1", port);
  }

  /** The rejected ports of the tests, on a good address. */
  lemma RejectedPortExamples()
    ensures New("1.1.1.1", "99999") == Err(PORT_NUMBER_ERROR)
    ensures New("1.1.1.1", "999998") == Err(PORT_NUMBER_ERROR)
    ensures New("1.1.1.1", "1t") == Err(PORT_NUMBER_ERROR)
  {
    GoodQuads();
    UnsignedPorts();
    MalformedPort();
    NewAccepts("1.1.1.1", "99999");
    NewAccepts("1.1.1.1", "999998");
    NewAccepts("1.1.1.1", "1t");
  }
}
