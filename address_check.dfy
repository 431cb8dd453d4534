/** The client's IPv4 address check.

    The pattern is
        ^(?:(?:25[0-5]|2[0-4][0-9]|[01]?[0-9][0-9]?)SEP){3}(?:25[0-5]|2[0-4][0-9]|[01]?[0-9][0-9]?)$
    where SEP is written `\.` inside an ordinary C++ string literal. That is
    not a valid escape sequence in C++; its meaning is left to the
    implementation. GCC and Clang warn and keep the plain character '.', so
    with them the compiled pattern's SEP is the wildcard `.`, which in the
    ECMAScript grammar matches any character but a line terminator. The
    evident intent is a literal dot. `AddressMatches` models that intent;
    `AddressMatchesAsCompiled` models the wildcard, and the two are compared
    at the end of this module.

    The meaning given to an accepted text is the decimal one (four groups,
    each a byte). It is the validator's meaning only: `inet_addr`, which later
    parses the text, reads a group with a leading zero as octal. */
module AddressCheck {
  import opened Digits

  /** 25[0-5] */
  predicate From250To255(g: string) {
    |g| == 3 && g[0] == '2' && g[1] == '5' && '0' <= g[2] <= '5'
  }

  /** 2[0-4][0-9] */
  predicate From200To249(g: string) {
    |g| == 3 && g[0] == '2' && '0' <= g[1] <= '4' && IsDigit(g[2])
  }

  /** [01]?[0-9][0-9]? -- the two optional parts give four shapes. */
  predicate Below200(g: string) {
    || (|g| == 1 && IsDigit(g[0]))
    || (|g| == 2 && IsDigit(g[0]) && IsDigit(g[1]))
    || (|g| == 2 && '0' <= g[0] <= '1' && IsDigit(g[1]))
    || (|g| == 3 && '0' <= g[0] <= '1' && IsDigit(g[1]) && IsDigit(g[2]))
  }

  /** One address group of the pattern. */
  predicate GroupMatches(g: string) {
    From250To255(g) || From200To249(g) || Below200(g)
  }

  /** A group stated by number: one to three digits (leading zeros allowed)
      whose decimal value fits in a byte. */
  predicate OctetText(g: string) {
    1 <= |g| <= 3 && AllDigits(g) && Value(g) <= 255
  }

  lemma ValueOfThree(g: string)
    requires |g| == 3 && AllDigits(g)
    ensures Value(g) == 100 * DigitValue(g[0]) + 10 * DigitValue(g[1]) + DigitValue(g[2])
  {
    var t1, t2 := g[1..], g[2..];
    assert t2[1..] == [];
    ValueFront(t2);
    assert t1[1..] == t2;
    ValueFront(t1);
    ValueFront(g);
  }

  lemma ValueOfTwo(g: string)
    requires |g| == 2 && AllDigits(g)
    ensures Value(g) == 10 * DigitValue(g[0]) + DigitValue(g[1])
  {
    assert g[1..][1..] == [];
    ValueFront(g[1..]);
    ValueFront(g);
  }

  /** The three alternatives of a group accept exactly the octet texts. */
  lemma GroupMatchesIff(g: string)
    ensures GroupMatches(g) <==> OctetText(g)
  {
    if |g| == 3 && AllDigits(g) {
      ValueOfThree(g);
    }
    if |g| == 2 && AllDigits(g) {
      ValueOfTwo(g);
    }
    if |g| == 1 && AllDigits(g) {
      ValueFront(g);
    }
  }

  /** What the separator position of the pattern accepts. */
  datatype Separator =
    | LiteralDot  // `\.` read as intended
    | Wildcard    // `.` as the compiler hands it to the regex engine

  predicate SeparatorMatches(sep: Separator, c: char) {
    match sep
    case LiteralDot => c == '.'
    case Wildcard => c != '\n' && c != '\r'
  }

  /** The text is (group SEP){n} group. A group is one to three characters
      long, so the choice the regex engine backtracks over is the length of
      the first group. */
  predicate Groups(sep: Separator, s: string, n: nat)
    decreases n, 1
  {
    GroupThen(sep, s, 1, n) || GroupThen(sep, s, 2, n) || GroupThen(sep, s, 3, n)
  }

  /** The first group is s[..i], and the rest matches. */
  predicate GroupThen(sep: Separator, s: string, i: nat, n: nat)
    decreases n, 0
  {
    && i <= |s|
    && GroupMatches(s[..i])
    && if n == 0 then i == |s|
       else i < |s| && SeparatorMatches(sep, s[i]) && Groups(sep, s[i + 1..], n - 1)
  }

  /** A length of the first group with which the rest matches. */
  function FirstGroupLength(sep: Separator, s: string, n: nat): (i: nat)
    requires Groups(sep, s, n)
    ensures 1 <= i <= 3 && GroupThen(sep, s, i, n)
  {
    if GroupThen(sep, s, 1, n) then 1 else if GroupThen(sep, s, 2, n) then 2 else 3
  }

  /** The address pattern, with the separator read as a literal dot. */
  predicate AddressMatches(s: string) {
    Groups(LiteralDot, s, 3)
  }

  /** The address pattern as the compiler builds it: any separator character. */
  predicate AddressMatchesAsCompiled(s: string) {
    Groups(Wildcard, s, 3)
  }

  /** Position of the first c in s. */
  function IndexOf(s: string, c: char): (i: nat)
    requires c in s
    ensures i < |s| && s[i] == c
    ensures forall k :: 0 <= k < i ==> s[k] != c
  {
    if s[0] == c then 0 else IndexOf(s[1..], c) + 1
  }

  /** The fields of s between occurrences of sep. */
  function Split(s: string, sep: char): (fs: seq<string>)
    ensures |fs| >= 1
    decreases |s|
  {
    if sep !in s then [s]
    else
      var i := IndexOf(s, sep);
      [s[..i]] + Split(s[i + 1..], sep)
  }

  lemma SplitAt(s: string, sep: char, i: nat)
    requires i < |s| && s[i] == sep
    requires forall k :: 0 <= k < i ==> s[k] != sep
    ensures Split(s, sep) == [s[..i]] + Split(s[i + 1..], sep)
  {
    assert IndexOf(s, sep) == i;
  }

  lemma SplitJoin(a: string, sep: char, b: string)
    requires sep !in a
    ensures Split(a + [sep] + b, sep) == [a] + Split(b, sep)
  {
    var s := a + [sep] + b;
    assert s[..|a|] == a && s[|a| + 1..] == b;
    assert forall k :: 0 <= k < |a| ==> s[k] == a[k];
    SplitAt(s, sep, |a|);
  }

  /** The reference reading of n+1 dot-separated octet texts. */
  predicate OctetFields(s: string, n: nat) {
    var fs := Split(s, '.');
    |fs| == n + 1 && forall k :: 0 <= k < |fs| ==> OctetText(fs[k])
  }

  /** Four dot-separated groups, each of one to three digits with decimal
      value at most 255. */
  predicate DottedQuad(s: string) {
    OctetFields(s, 3)
  }

  lemma OctetTextHasNoDot(g: string)
    requires OctetText(g)
    ensures '.' !in g
    ensures forall k :: 0 <= k < |g| ==> g[k] != '.'
  {
  }

  lemma {:induction false} GroupsToFields(s: string, n: nat)
    requires Groups(LiteralDot, s, n)
    ensures OctetFields(s, n)
    decreases n
  {
    var i := FirstGroupLength(LiteralDot, s, n);
    var g := s[..i];
    GroupMatchesIff(g);
    OctetTextHasNoDot(g);
    if n == 0 {
      assert g == s;
      assert Split(s, '.') == [g];
    } else {
      var rest := s[i + 1..];
      SplitAt(s, '.', i);
      GroupsToFields(rest, n - 1);
      var fs, tail := Split(s, '.'), Split(rest, '.');
      assert fs == [g] + tail;
      forall k | 0 <= k < |fs|
        ensures OctetText(fs[k])
      {
        if k > 0 {
          assert fs[k] == tail[k - 1];
        }
      }
    }
  }

  lemma {:induction false} FieldsToGroups(s: string, n: nat)
    requires OctetFields(s, n)
    ensures Groups(LiteralDot, s, n)
    decreases n
  {
    var fs := Split(s, '.');
    if '.' in s {
      var i := IndexOf(s, '.');
      assert fs[0] == s[..i];
      assert OctetText(fs[0]);
      GroupMatchesIff(s[..i]);
      var rest := s[i + 1..];
      assert Split(rest, '.') == fs[1..];
      FieldsToGroups(rest, n - 1);
      assert GroupThen(LiteralDot, s, i, n);
    } else {
      assert fs == [s];
      assert OctetText(fs[0]);
      GroupMatchesIff(s);
      assert s[..|s|] == s;
      assert GroupThen(LiteralDot, s, |s|, n);
    }
  }

  lemma GroupsIff(s: string, n: nat)
    ensures Groups(LiteralDot, s, n) <==> OctetFields(s, n)
  {
    if Groups(LiteralDot, s, n) {
      GroupsToFields(s, n);
    }
    if OctetFields(s, n) {
      FieldsToGroups(s, n);
    }
  }

  /** The address pattern accepts exactly the dotted quads. */
  lemma AddressMatchesIff(s: string)
    ensures AddressMatches(s) <==> DottedQuad(s)
  {
    GroupsIff(s, 3);
  }

  /** Number of occurrences of c in s. */
  function Count(s: string, c: char): (m: nat)
    ensures m <= |s|
  {
    if s == [] then 0 else (if s[0] == c then 1 else 0) + Count(s[1..], c)
  }

  lemma {:induction false} CountAppend(a: string, b: string, c: char)
    ensures Count(a + b, c) == Count(a, c) + Count(b, c)
  {
    if a == [] {
      assert a + b == b;
    } else {
      assert (a + b)[1..] == a[1..] + b;
      CountAppend(a[1..], b, c);
    }
  }

  lemma {:induction false} CountAbsent(s: string, c: char)
    requires forall k :: 0 <= k < |s| ==> s[k] != c
    ensures Count(s, c) == 0
  {
    if s != [] {
      CountAbsent(s[1..], c);
    }
  }

  /** A group of the pattern is one to three digits. */
  lemma GroupDigits(g: string)
    requires GroupMatches(g)
    ensures 1 <= |g| <= 3 && AllDigits(g)
    ensures forall k :: 0 <= k < |g| ==> g[k] != '.'
  {
  }

  /** Shape of (group '.'){n} group: n dots, every other character a digit,
      and a length between 2n+1 and 4n+3. */
  lemma {:induction false} GroupsShape(s: string, n: nat)
    requires Groups(LiteralDot, s, n)
    ensures Count(s, '.') == n
    ensures forall k :: 0 <= k < |s| ==> s[k] == '.' || IsDigit(s[k])
    ensures 2 * n + 1 <= |s| <= 4 * n + 3
    decreases n
  {
    var i := FirstGroupLength(LiteralDot, s, n);
    var g := s[..i];
    GroupDigits(g);
    CountAbsent(g, '.');
    if n > 0 {
      var rest := s[i + 1..];
      GroupsShape(rest, n - 1);
      assert s == g + ([s[i]] + rest);
      CountAppend(g, [s[i]] + rest, '.');
      CountAppend([s[i]], rest, '.');
      forall k | 0 <= k < |s|
        ensures s[k] == '.' || IsDigit(s[k])
      {
        if k < i {
          assert s[k] == g[k];
        } else if k > i {
          assert s[k] == rest[k - i - 1];
        }
      }
    } else {
      assert g == s;
    }
  }

  /** An accepted address has exactly three dots and otherwise only digits. */
  lemma AcceptedAddressShape(s: string)
    requires AddressMatches(s)
    ensures Count(s, '.') == 3
    ensures forall k :: 0 <= k < |s| ==> s[k] == '.' || IsDigit(s[k])
    ensures 7 <= |s| <= 15
    ensures DottedQuad(s)
  {
    GroupsShape(s, 3);
    AddressMatchesIff(s);
  }

  /** The four octets of a dotted quad, in the validator's decimal reading. */
  function Octets(s: string): (o: seq<byte>)
    requires DottedQuad(s)
    ensures |o| == 4
    ensures forall k :: 0 <= k < 4 ==> o[k] as int == Value(Split(s, '.')[k])
  {
    var fs := Split(s, '.');
    [Value(fs[0]) as byte, Value(fs[1]) as byte, Value(fs[2]) as byte, Value(fs[3]) as byte]
  }

  /** The fields joined with sep between them. */
  function Join(fs: seq<string>, sep: char): (s: string)
    requires |fs| >= 1
    decreases |fs|
  {
    if |fs| == 1 then fs[0] else fs[0] + [sep] + Join(fs[1..], sep)
  }

  /** Splitting undoes joining when no field holds the separator. */
  lemma {:induction false} SplitJoinAll(fs: seq<string>, sep: char)
    requires |fs| >= 1
    requires forall k :: 0 <= k < |fs| ==> sep !in fs[k]
    ensures Split(Join(fs, sep), sep) == fs
    decreases |fs|
  {
    if |fs| > 1 {
      var tail := fs[1..];
      assert forall k :: 0 <= k < |tail| ==> tail[k] == fs[k + 1];
      SplitJoinAll(tail, sep);
      assert Join(fs, sep) == fs[0] + [sep] + Join(tail, sep);
      SplitJoin(fs[0], sep, Join(tail, sep));
      assert fs == [fs[0]] + tail;
    }
  }

  /** The canonical dotted-decimal text of four octets. */
  function FormatAddress(o: seq<byte>): (s: string)
    requires |o| == 4
  {
    Join(OctetTexts(o), '.')
  }

  function OctetTexts(o: seq<byte>): (ts: seq<string>)
    ensures |ts| == |o|
    ensures forall k :: 0 <= k < |o| ==> ts[k] == DecimalText(o[k] as nat)
  {
    if o == [] then [] else [DecimalText(o[0] as nat)] + OctetTexts(o[1..])
  }

  lemma ByteTextIsOctet(b: byte)
    ensures OctetText(DecimalText(b as nat))
  {
    DecimalTextLength(b as nat, 3);
  }

  /** Every address has an accepted spelling, and reading it back gives the
      same four octets. */
  lemma AddressRoundTrip(o: seq<byte>)
    requires |o| == 4
    ensures AddressMatches(FormatAddress(o))
    ensures DottedQuad(FormatAddress(o)) && Octets(FormatAddress(o)) == o
  {
    var s, ts := FormatAddress(o), OctetTexts(o);
    forall k | 0 <= k < 4
      ensures OctetText(ts[k]) && '.' !in ts[k]
    {
      ByteTextIsOctet(o[k]);
      OctetTextHasNoDot(ts[k]);
    }
    SplitJoinAll(ts, '.');
    assert DottedQuad(s);
    AddressMatchesIff(s);
  }

  /** The address pattern rejects texts with a group above 255. */
  lemma AddressRejectsLargeGroups()
    ensures !AddressMatches("999.1.1.1") && !AddressMatches("256.0.0.1")
  {
    assert "999.1.1.1"[..3] == "999" && "256.0.0.1"[..3] == "256";
    ValueOfThree("999");
    ValueOfThree("256");
    FirstGroupTooLarge("999.1.1.1");
    FirstGroupTooLarge("256.0.0.1");
  }

  lemma FirstGroupTooLarge(s: string)
    requires |s| >= 4 && AllDigits(s[..3]) && s[3] == '.'
    requires Value(s[..3]) > 255
    ensures !AddressMatches(s)
  {
    assert forall k :: 0 <= k < 3 ==> s[k] == s[..3][k];
    SplitAt(s, '.', 3);
    assert !OctetText(Split(s, '.')[0]);
    AddressMatchesIff(s);
  }

  /** The address pattern rejects texts with too few or too many groups, an
      empty group, letters, and the empty text. */
  lemma AddressRejectsMalformed()
    ensures !AddressMatches("1.2.3") && !AddressMatches("1.2.3.4.5")
    ensures !AddressMatches("1..2.3") && !AddressMatches("abc") && !AddressMatches("")
  {
    NotAccepted("1.2.3", 0);
    NotAccepted("1..2.3", 0);
    NotAccepted("abc", 0);
    NotAccepted("", 0);
    FiveGroupsRejected();
  }

  lemma FiveGroupsRejected()
    ensures !AddressMatches("1.2.3.4.5")
  {
    assert Count("1.2.3.4.5", '.') == 4;
    NotAccepted("1.2.3.4.5", 0);
  }

  /** A text that breaks the shape of an accepted address is rejected. */
  lemma NotAccepted(s: string, k: nat)
    requires Count(s, '.') != 3 || (k < |s| && s[k] != '.' && !IsDigit(s[k])) || |s| < 7
    ensures !AddressMatches(s)
  {
    if AddressMatches(s) {
      AcceptedAddressShape(s);
    }
  }

  /** Every text the intended pattern accepts, the compiled one accepts too. */
  lemma {:induction false} GroupsWiden(s: string, n: nat)
    requires Groups(LiteralDot, s, n)
    ensures Groups(Wildcard, s, n)
    decreases n
  {
    var i := FirstGroupLength(LiteralDot, s, n);
    if n > 0 {
      GroupsWiden(s[i + 1..], n - 1);
    }
    assert GroupThen(Wildcard, s, i, n);
  }

  lemma CompiledAcceptsIntended(s: string)
    requires AddressMatches(s)
    ensures AddressMatchesAsCompiled(s)
  {
    GroupsWiden(s, 3);
  }

  /** The compiled pattern accepts texts that are not addresses: letters as
      separators, or seven digits read as seven one-digit groups. */
  lemma CompiledAcceptsNonAddresses()
    ensures AddressMatchesAsCompiled("1x2x3x4") && !AddressMatches("1x2x3x4")
    ensures AddressMatchesAsCompiled("1111111") && !AddressMatches("1111111")
  {
    OneCharGroups("1x2x3x4");
    OneCharGroups("1111111");
    NotAccepted("1x2x3x4", 1);
    assert Count("1111111", '.') == 0;
    NotAccepted("1111111", 0);
  }

  /** Seven non-terminator characters whose even positions are digits match
      the compiled pattern as four one-digit groups. */
  lemma OneCharGroups(s: string)
    requires |s| == 7
    requires IsDigit(s[0]) && IsDigit(s[2]) && IsDigit(s[4]) && IsDigit(s[6])
    requires SeparatorMatches(Wildcard, s[1]) && SeparatorMatches(Wildcard, s[3])
    requires SeparatorMatches(Wildcard, s[5])
    ensures AddressMatchesAsCompiled(s)
  {
    var s2, s4, s6 := s[2..], s[4..], s[6..];
    assert s6[..1] == s6 && GroupMatches(s6[..1]);
    assert GroupThen(Wildcard, s6, 1, 0);
    assert s4[2..] == s6 && s4[..1] == [s[4]] && GroupMatches(s4[..1]);
    assert GroupThen(Wildcard, s4, 1, 1);
    assert s2[2..] == s4 && s2[..1] == [s[2]] && GroupMatches(s2[..1]);
    assert GroupThen(Wildcard, s2, 1, 2);
    assert s[2..] == s2 && s[..1] == [s[0]] && GroupMatches(s[..1]);
    assert GroupThen(Wildcard, s, 1, 3);
  }
}
