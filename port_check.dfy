/** The client's port check and port conversion.

    The pattern is anchored at both ends and `regex_match` matches the whole
    argument, so the accepted language is the union of the six alternatives
    of
        ^([0-9]{1,4}|[1-5][0-9]{4}|6[0-4][0-9]{3}|65[0-4][0-9]{2}|655[0-2][0-9]|6553[0-5])$
    one predicate per alternative below. An accepted text is then converted
    with `atoi` (decimal, leading zeros ignored) into an `int` and handed to
    `htons`, whose parameter is 16 bits wide: the conversion keeps the value
    modulo 2^16 and the field holds it in network byte order. */
module PortCheck {
  import opened Digits

  /** [0-9]{1,4} */
  predicate UpToFourDigits(s: string) {
    1 <= |s| <= 4 && AllDigits(s)
  }

  /** [1-5][0-9]{4} */
  predicate From10000To59999(s: string) {
    |s| == 5 && '1' <= s[0] <= '5' && AllDigits(s[1..])
  }

  /** 6[0-4][0-9]{3} */
  predicate From60000To64999(s: string) {
    |s| == 5 && s[0] == '6' && '0' <= s[1] <= '4' && AllDigits(s[2..])
  }

  /** 65[0-4][0-9]{2} */
  predicate From65000To65499(s: string) {
    |s| == 5 && s[..2] == "65" && '0' <= s[2] <= '4' && AllDigits(s[3..])
  }

  /** 655[0-2][0-9] */
  predicate From65500To65529(s: string) {
    |s| == 5 && s[..3] == "655" && '0' <= s[3] <= '2' && IsDigit(s[4])
  }

  /** 6553[0-5] */
  predicate From65530To65535(s: string) {
    |s| == 5 && s[..4] == "6553" && '0' <= s[4] <= '5'
  }

  /** The port pattern. */
  predicate PortMatches(s: string) {
    || UpToFourDigits(s)
    || From10000To59999(s)
    || From60000To64999(s)
    || From65000To65499(s)
    || From65500To65529(s)
    || From65530To65535(s)
  }

  /** The same language stated by number: one to four digits (leading zeros
      allowed), or five digits not starting with '0' whose value is at most
      65535. */
  predicate PortSpelling(s: string) {
    AllDigits(s) && (1 <= |s| <= 4 || (|s| == 5 && s[0] != '0' && Value(s) <= 65535))
  }

  /** The value of a five-digit string, digit by digit. */
  lemma ValueOfFive(s: string)
    requires |s| == 5 && AllDigits(s)
    ensures Value(s) == 10000 * DigitValue(s[0]) + 1000 * DigitValue(s[1])
                        + 100 * DigitValue(s[2]) + 10 * DigitValue(s[3]) + DigitValue(s[4])
  {
    var p1, p2, p3, p4 := s[..1], s[..2], s[..3], s[..4];
    assert p1[..0] == [] && p2[..1] == p1 && p3[..2] == p2 && p4[..3] == p3 && s[..4] == p4;
    assert Value(p1) == DigitValue(s[0]);
    assert Value(p2) == 10 * DigitValue(s[0]) + DigitValue(s[1]);
    assert Value(p3) == 100 * DigitValue(s[0]) + 10 * DigitValue(s[1]) + DigitValue(s[2]);
    assert Value(p4) == 1000 * DigitValue(s[0]) + 100 * DigitValue(s[1]) + 10 * DigitValue(s[2])
                        + DigitValue(s[3]);
  }

  /** Every alternative accepts digits only. */
  lemma AlternativesAreDigits(s: string)
    requires PortMatches(s)
    ensures AllDigits(s)
  {
    if |s| == 5 {
      assert forall k :: 1 <= k < 5 ==> s[k] == s[1..][k - 1];
      assert forall k :: 2 <= k < 5 ==> s[k] == s[2..][k - 2];
      assert forall k :: 3 <= k < 5 ==> s[k] == s[3..][k - 3];
    }
  }

  /** On five digits, the five long alternatives say: first digit not '0'
      and value at most 65535. */
  lemma FiveDigitPort(s: string)
    requires |s| == 5 && AllDigits(s)
    ensures PortMatches(s) <==> s[0] != '0' && Value(s) <= 65535
  {
    ValueOfFive(s);
    assert s[..2] == "65" <==> s[0] == '6' && s[1] == '5';
    assert s[..3] == "655" <==> s[0] == '6' && s[1] == '5' && s[2] == '5';
    assert s[..4] == "6553" <==> s[0] == '6' && s[1] == '5' && s[2] == '5' && s[3] == '3';
  }

  /** The six alternatives together accept exactly the numeric description. */
  lemma PortMatchesIff(s: string)
    ensures PortMatches(s) <==> PortSpelling(s)
  {
    if PortMatches(s) {
      AlternativesAreDigits(s);
    }
    if |s| == 5 && AllDigits(s) {
      FiveDigitPort(s);
    }
  }

  /** Every accepted text has a decimal value that fits the 16-bit port field. */
  lemma AcceptedPortFits(s: string)
    requires PortMatches(s)
    ensures AllDigits(s) && Value(s) <= 65535
  {
    PortMatchesIff(s);
    if |s| <= 4 {
      PowMonotone(|s|, 4);
    }
  }

  /** The pattern rejects the empty text, any text holding a non-digit (a
      sign, a space), any text of six or more characters, and in particular
      "65536" and "04097". */
  lemma PortRejects(s: string)
    ensures |s| == 0 ==> !PortMatches(s)
    ensures (exists i :: 0 <= i < |s| && !IsDigit(s[i])) ==> !PortMatches(s)
    ensures |s| >= 6 ==> !PortMatches(s)
    ensures !PortMatches("65536") && !PortMatches("04097")
    ensures !PortMatches("+80") && !PortMatches("-1") && !PortMatches(" 80")
  {
    PortMatchesIff(s);
    PortMatchesIff("65536");
    ValueOfFive("65536");
    PortMatchesIff("04097");
    PortMatchesIff("+80");
    PortMatchesIff("-1");
    PortMatchesIff(" 80");
    assert !IsDigit("+80"[0]) && !IsDigit("-1"[0]) && !IsDigit(" 80"[0]);
  }

  /** Leading zeros are accepted by the four-digit alternative and read as
      decimal. */
  lemma LeadingZerosAccepted()
    ensures PortMatches("0") && PortMatches("0000") && PortMatches("0080")
    ensures Value("0000") == 0 && Value("0080") == 80
  {
    assert "0080"[..3] == "008" && "008"[..2] == "00" && "00"[..1] == "0" && "0"[..0] == [];
    assert "0000"[..3] == "000" && "000"[..2] == "00";
  }

  /** C's conversion of an `int` to a 16-bit unsigned parameter: the value
      modulo 2^16. */
  function Truncate16(n: int): (p: uint16)
    ensures 0 <= n < 0x1_0000 ==> p as int == n
    ensures (p as int - n) % 0x1_0000 == 0
  {
    (n % 0x1_0000) as uint16
  }

  /** The port stored by the client: `atoi` of the accepted text, narrowed to
      16 bits. The narrowing never changes the value of an accepted text. */
  function ToPort(s: string): (p: uint16)
    requires PortMatches(s)
    ensures AllDigits(s) && p as int == Value(s)
  {
    AcceptedPortFits(s);
    Truncate16(Value(s))
  }

  /** Without the check, "65536" would be narrowed to port 0. */
  lemma PortCheckPreventsWrap()
    ensures !PortMatches("65536") && AllDigits("65536") && Truncate16(Value("65536")) == 0
  {
    PortRejects("65536");
    ValueOfFive("65536");
  }

  /** Every 16-bit port has an accepted spelling (its canonical decimal
      text), and converting that spelling gives the port back. */
  lemma PortTextRoundTrip(p: uint16)
    ensures PortMatches(DecimalText(p as nat))
    ensures ToPort(DecimalText(p as nat)) == p
  {
    var s := DecimalText(p as nat);
    DecimalTextLength(p as nat, 5);
    PortMatchesIff(s);
  }

  /** The port field in network byte order (`htons`): most significant byte
      first. */
  function PortField(p: uint16): (b: seq<byte>)
    ensures |b| == 2 && b[0] as int * 0x100 + b[1] as int == p as int
  {
    [(p as int / 0x100) as byte, (p as int % 0x100) as byte]
  }

  /** Reading a network-order port field back. */
  function FieldPort(b: seq<byte>): (p: uint16)
    requires |b| == 2
    ensures p as int == b[0] as int * 0x100 + b[1] as int
  {
    (b[0] as int * 0x100 + b[1] as int) as uint16
  }

  lemma PortFieldRoundTrip(p: uint16, b: seq<byte>)
    requires |b| == 2
    ensures FieldPort(PortField(p)) == p
    ensures PortField(FieldPort(b)) == b
  {
  }
}
