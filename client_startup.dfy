/** The start of the client's `main`: the argument-count message, the two
    command-line checks and the decision they make, before any socket exists.

    `argv` is the whole argument vector, program name first, so `|argv|` is
    `argc`, the address text is `argv[1]` and the port text is `argv[2]`. */
module ClientStartup {
  import opened Digits
  import opened PortCheck
  import opened AddressCheck

  /** The server endpoint the client goes on to connect to. `octets` is the
      validator's decimal reading of the address text; the text itself is
      what the client hands to `inet_addr`. */
  datatype Endpoint = Endpoint(ipText: string, octets: seq<byte>, port: uint16)

  /** Which check failed; each has its own diagnostic. */
  datatype Rejection = BadPort | BadAddress

  datatype Outcome =
      // a check failed: exit(code) after the check's diagnostic
    | Exit(code: int, reason: Rejection)
      // both texts accepted: the client goes on to create and connect a socket
    | Proceed(server: Endpoint)
      // argc < 3: argv[2] is the null pointer (argc == 2) or lies past the
      // end of argv (argc <= 1), and the source hands it to the matcher
      // unchecked; what follows is undefined either way
    | MissingArgument

  /** A wrong argument count only prints the usage line. */
  predicate PrintsUsage(argv: seq<string>) {
    |argv| != 3
  }

  /** The decision of client.cpp's main before the socket is created: the
      port is checked first, then the address; either failure exits with
      code 1, and only when both pass does the client proceed. */
  function Decide(argv: seq<string>): (r: Outcome)
    ensures r.MissingArgument? <==> |argv| < 3
    ensures |argv| >= 3 && !PortSpelling(argv[2]) ==> r == Exit(1, BadPort)
    ensures |argv| >= 3 && PortSpelling(argv[2]) && !DottedQuad(argv[1]) ==> r == Exit(1, BadAddress)
    ensures r.Proceed? <==> |argv| >= 3 && PortSpelling(argv[2]) && DottedQuad(argv[1])
    ensures r.Proceed? ==> && DottedQuad(argv[1]) && AllDigits(argv[2])
                           && r.server.ipText == argv[1]
                           && r.server.octets == Octets(argv[1])
                           && r.server.port as int == Value(argv[2])
  {
    if |argv| < 3 then MissingArgument
    else
      var ipText, portText := argv[1], argv[2];
      PortMatchesIff(portText);
      AddressMatchesIff(ipText);
      if !PortMatches(portText) then Exit(1, BadPort)
      else if !AddressMatches(ipText) then Exit(1, BadAddress)
      else Proceed(Endpoint(ipText, Octets(ipText), ToPort(portText)))
  }

  /** What the start of main does that can be observed, in order. */
  datatype Step =
    | Usage                      // the usage line on standard error
    | Diagnostic(r: Rejection)   // the `perror` line of the failed check
    | ExitProcess(code: int)
    | OpenSocket                 // socket(AF_INET, SOCK_STREAM, 0)
    | Connect(server: Endpoint)  // connect() to the endpoint's text and port

  function Steps(argv: seq<string>): (t: seq<Step>)
    ensures PrintsUsage(argv) <==> |t| >= 1 && t[0] == Usage
    ensures |t| <= 3
  {
    (if PrintsUsage(argv) then [Usage] else [])
    + match Decide(argv)
      case Exit(code, why) => [Diagnostic(why), ExitProcess(code)]
      case Proceed(e) => [OpenSocket, Connect(e)]
      case MissingArgument => []
  }

  /** Fail fast: a socket is created, and a connection attempted, exactly
      when both texts are accepted; a rejection ends the process with code 1
      and no socket step. */
  lemma FailFast(argv: seq<string>)
    requires |argv| >= 3
    ensures OpenSocket in Steps(argv) <==> PortSpelling(argv[2]) && DottedQuad(argv[1])
    ensures (exists e :: Connect(e) in Steps(argv)) <==> OpenSocket in Steps(argv)
    ensures ExitProcess(1) in Steps(argv) <==> !(PortSpelling(argv[2]) && DottedQuad(argv[1]))
    ensures ExitProcess(1) in Steps(argv) ==> OpenSocket !in Steps(argv)
    ensures ExitProcess(1) in Steps(argv) ==> Steps(argv)[|Steps(argv)| - 1] == ExitProcess(1)
    ensures var t, d := Steps(argv), Decide(argv);
            d.Proceed? ==> |t| >= 2 && t[|t| - 2..] == [OpenSocket, Connect(d.server)]
    ensures var t, d := Steps(argv), Decide(argv);
            d.Exit? ==> |t| >= 2 && t[|t| - 2..] == [Diagnostic(d.reason), ExitProcess(1)]
  {
    var t := Steps(argv);
    var u: seq<Step> := if PrintsUsage(argv) then [Usage] else [];
    match Decide(argv)
    case Exit(code, why) =>
      assert t == u + [Diagnostic(why), ExitProcess(code)];
      assert OpenSocket !in t && forall e :: Connect(e) !in t;
    case Proceed(e) =>
      assert t == u + [OpenSocket, Connect(e)];
      assert Connect(e) in t;
      assert forall c :: ExitProcess(c) !in t;
    case MissingArgument =>
  }

  /** The port is checked before the address: a rejected port gives the port
      diagnostic whatever the address text is. */
  lemma PortCheckedFirst(argv: seq<string>, ipText: string)
    requires |argv| >= 3 && !PortSpelling(argv[2])
    ensures Steps(argv[1 := ipText]) == Steps(argv)
    ensures Diagnostic(BadPort) in Steps(argv) && Diagnostic(BadAddress) !in Steps(argv)
  {
    assert argv[1 := ipText][2] == argv[2];
  }

  /** A wrong argument count does not by itself end the program: with extra
      arguments, the validation of argv[1] and argv[2] decides as it would
      with exactly two. */
  lemma ExtraArgumentsFallThrough(argv: seq<string>)
    requires |argv| > 3
    ensures Decide(argv) == Decide(argv[..3])
    ensures Steps(argv) == [Usage] + Steps(argv[..3])
  {
    assert argv[..3][1] == argv[1] && argv[..3][2] == argv[2];
  }

  /** Every endpoint can be given on the command line: its canonical texts
      pass both checks and are read back as the same octets and port. */
  lemma ProceedRoundTrip(program: string, octets: seq<byte>, port: uint16)
    requires |octets| == 4
    ensures var argv := [program, FormatAddress(octets), DecimalText(port as nat)];
            Decide(argv) == Proceed(Endpoint(FormatAddress(octets), octets, port))
  {
    AddressRoundTrip(octets);
    PortTextRoundTrip(port);
    PortMatchesIff(DecimalText(port as nat));
  }

  /** The frame the client receives after connecting: 480 rows of 640
      single-byte pixels. */
  const FrameRows: nat := 480
  const FrameColumns: nat := 640
  const BytesPerPixel: nat := 1

  lemma FrameSize()
    ensures FrameRows * FrameColumns * BytesPerPixel == 307200
  {
  }
}
