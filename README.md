# Client endpoint validation of an OpenCV TCP video stream

The system streams 640×480 grayscale frames from a server to clients over a
raw TCP connection. This project models the one piece of pure logic in the
client: how `main` validates its command line before it touches the network.

- The client is run as `client <serverIP> <serverPort>`. A wrong argument
  count prints a usage line but does not end the program.
- The port text must match a regular expression for 0–65535. This check runs
  first.
- The address text must match a regular expression for dotted-decimal IPv4.
- If either check fails, the program prints a diagnostic and exits with code
  1. It does this before any socket is created or connected.
- An accepted port text is converted with `atoi` and stored by `htons` in the
  16-bit port field (section 3.1 of RFC 793). Each group of an accepted
  address is one byte of the 32-bit address (section 3.1 of RFC 791).

Modules:

- `Digits` (digits.dfy): the class `[0-9]`, the decimal value of a digit
  string, canonical decimal text, and the `byte` and `uint16` types.
- `PortCheck` (port_check.dfy): one predicate per alternative of the port
  pattern, its numeric characterisation, and the conversion to the 16-bit
  field.
- `AddressCheck` (address_check.dfy): one predicate per alternative of the
  address group, the four-group pattern, its characterisation through
  splitting at dots, and the decimal octets.
- `ClientStartup` (client_startup.dfy): the decision `main` makes, and the
  order of its observable steps.

The address pattern writes its separator as `\.` inside an ordinary C++
string literal. That is not a valid escape, and its meaning is left to the
implementation: GCC and Clang keep a plain `.`, and the regex engine reads
that as a wildcard. The model takes the evident
intent, a literal dot (`AddressCheck.AddressMatches`). The wildcard reading is
modelled too (`AddressCheck.AddressMatchesAsCompiled`) and compared under
"## Findings".

As given, client.cpp does not compile:

- `serverPort` is an `int` but receives `argv[2]` and is passed to the matcher.
- `servAddr` and `sokt` are undeclared.
- `regex_match` is not declared by `<regex.h>`.

The model follows what the code evidently means: the port text is `argv[2]`,
it is matched as a string, and then it is converted with `atoi`.

The port is checked before the address (client.cpp:55, 60). A wrong
argument count prints the usage line and carries on (client.cpp:48-50;
`ClientStartup.ExtraArgumentsFallThrough`).

## Model

| member | source | states |
|---|---|---|
| `PortCheck.PortMatches` | client.cpp:55 | the port pattern, one disjunct per alternative; no contract; characterised by `PortCheck.PortMatchesIff` |
| `PortCheck.PortMatchesIff` | client.cpp:55 | the six alternatives of the port pattern accept a text exactly when it is one to four ASCII digits (leading zeros allowed), or five digits, the first not '0', with decimal value at most 65535 |
| `PortCheck.AcceptedPortFits` | client.cpp:55 | every accepted port text is all digits and has decimal value at most 65535 |
| `PortCheck.PortRejects` | client.cpp:55 | the port pattern rejects the empty text, any text with a non-digit (sign, space), any text of six or more characters, and "65536" and "04097" |
| `PortCheck.LeadingZerosAccepted` | client.cpp:55 | "0", "0000" and "0080" are accepted, and "0080" has value 80 |
| `Digits.Value` | client.cpp:73 | `atoi` on a digit string, leading zeros read as decimal: the value of an n-digit string is below 10^n; further characterised by `Digits.ValueFront` and by `Value(DecimalText(n)) == n` |
| `PortCheck.Truncate16` | client.cpp:78 | the implicit `int` to 16-bit conversion at the `htons` call keeps a value congruent modulo 2^16, and keeps any value in 0..65535 unchanged |
| `PortCheck.ToPort` | client.cpp:73-78 | the port stored for an accepted text equals its decimal value: narrowing to 16 bits never truncates |
| `PortCheck.PortCheckPreventsWrap` | client.cpp:55-78 | "65536" is rejected; without the check it would be narrowed to port 0 |
| `PortCheck.PortTextRoundTrip` | client.cpp:55-78 | every 16-bit port has an accepted text (its canonical decimal), and converting that text gives the port back |
| `PortCheck.PortField` | client.cpp:78 | the port field in network byte order: two bytes, most significant first, whose value is the port |
| `PortCheck.PortFieldRoundTrip` | client.cpp:78 | reading the network-order field back gives the port, and every two-byte field comes from exactly one port |
| `AddressCheck.GroupMatches` | client.cpp:60 | one address group, whose alternatives are `25[0-5]`, `2[0-4][0-9]` and `[01]?[0-9][0-9]?`; no contract; characterised by `AddressCheck.GroupMatchesIff` |
| `AddressCheck.GroupMatchesIff` | client.cpp:60 | the three alternatives of an address group accept exactly one to three digits (leading zeros allowed) with decimal value at most 255 |
| `AddressCheck.GroupsIff` | client.cpp:60 | a text matches (group '.'){n} group exactly when splitting it at dots gives n+1 fields, each an octet text |
| `AddressCheck.AddressMatches` | client.cpp:60 | the address pattern with a literal-dot separator; no contract; characterised by `AddressCheck.AddressMatchesIff` and `AddressCheck.AcceptedAddressShape` |
| `AddressCheck.AddressMatchesAsCompiled` | client.cpp:60 | the address pattern with the wildcard separator the compiled literal yields; no contract; characterised by `AddressCheck.CompiledAcceptsIntended` and `AddressCheck.CompiledAcceptsNonAddresses` |
| `AddressCheck.AddressMatchesIff` | client.cpp:60 | the address pattern accepts a text exactly when it has four dot-separated groups, each of one to three digits with decimal value at most 255 |
| `AddressCheck.GroupsShape` | client.cpp:60 | a text matching (group '.'){n} group has exactly n dots, only digits otherwise, and length between 2n+1 and 4n+3 |
| `AddressCheck.AcceptedAddressShape` | client.cpp:60 | an accepted address has exactly three dots, only digits otherwise, length 7 to 15, and four groups that each fit in a byte |
| `AddressCheck.Octets` | client.cpp:60 | the validator's reading of an accepted address: four bytes, each the decimal value of its group |
| `AddressCheck.AddressRoundTrip` | client.cpp:60 | every four-byte address has an accepted canonical text, and reading that text gives the same four bytes |
| `AddressCheck.AddressRejectsLargeGroups` | client.cpp:60 | "999.1.1.1" and "256.0.0.1" are rejected |
| `AddressCheck.AddressRejectsMalformed` | client.cpp:60 | "1.2.3", "1.2.3.4.5", "1..2.3", "abc" and "" are rejected |
| `AddressCheck.NotAccepted` | client.cpp:60 | a text without exactly three dots, with a character that is neither a dot nor a digit, or shorter than seven characters is rejected |
| `AddressCheck.CompiledAcceptsIntended` | client.cpp:60 | every text the intended pattern accepts is also accepted with the wildcard separator the compiler produces |
| `AddressCheck.CompiledAcceptsNonAddresses` | client.cpp:60 | with the wildcard separator, "1x2x3x4" and "1111111" are accepted; the intended pattern rejects both |
| `ClientStartup.PrintsUsage` | client.cpp:48-50 | the usage test `argc != 3`; no contract; characterised by `ClientStartup.Steps` and `ClientStartup.ExtraArgumentsFallThrough` |
| `ClientStartup.Decide` | client.cpp:48-63 | fewer than two arguments gives the undefined case; otherwise a port that is not a valid spelling exits with code 1 and the port reason whatever the address is; then an address that is not a dotted quad exits with code 1 and the address reason; the client proceeds exactly when both pass, with the address text, its decimal octets, and a port equal to the port text's value |
| `ClientStartup.Steps` | client.cpp:48-80 | the usage line comes first exactly when the argument count is wrong, and the whole sequence has at most three steps |
| `ClientStartup.FailFast` | client.cpp:55-80 | a socket is opened and a connection attempted exactly when both texts pass; otherwise the steps end with exit code 1 and hold no socket step; when the client proceeds, the steps end with opening the socket and then connecting to exactly the endpoint `Decide` validated, identified by its address text and its port (the octets are the validator's reading, not what `inet_addr` makes of the text); when a check fails, they end with that check's diagnostic and then exit code 1 |
| `ClientStartup.PortCheckedFirst` | client.cpp:55-63 | with a rejected port, the steps do not depend on the address text and hold only the port diagnostic |
| `ClientStartup.ExtraArgumentsFallThrough` | client.cpp:48-53 | with more than two arguments, the usage line is printed and the outcome is that of the first two arguments |
| `ClientStartup.ProceedRoundTrip` | client.cpp:52-78 | every endpoint, given as its canonical address text and port text, is accepted and read back as the same octets and port |
| `ClientStartup.FrameSize` | client.cpp:90-91 | a frame is 480 × 640 × 1 = 307200 bytes |

## Left out

- The server (server.cpp): socket setup, epoll, signal handling, camera capture and sending are all system calls or OpenCV calls. Its `-h` usage exit (server.cpp:67-75) uses `strcmp`. Its port is 4097 unless `argc == 2`, when it is `atoi(argv[1])`, unvalidated (server.cpp:55, 77-78).
- The client's `socket`, `connect` and `close` calls (client.cpp:69, 80, 117) are foreign system calls. `socket` and `connect` appear as the steps `OpenSocket` and `Connect`; `close` is not modelled. Their failures are not modelled; the source only logs them.
- The `SIGALRM` handler and `m_signal` (client.cpp:24-41): signal plumbing that is never installed.
- The receive loop with `recv(..., MSG_WAITALL)`, `imshow` and `waitKey` (client.cpp:104-115): I/O and display. This includes the precedence slip in `key = cv::waitKey(10) >= 0`.
- `inet_addr` (client.cpp:77) is not modelled. `AddressCheck.Octets` is the validator's decimal reading only. `inet_addr` reads a group with a leading zero as octal, so "010.0.0.1" passes the check but means 8.0.0.1. A group with a leading zero followed by an 8 or a 9, such as "08" or "099", also passes the check, but `inet_addr` rejects it and returns `INADDR_NONE`. So the address `connect` is given is fixed by the text `Endpoint.ipText`, not by `Endpoint.octets`.
- `atoi` is modelled only on texts the port check accepts, where it gives the decimal value. Its behaviour on other input is not modelled.
- ClientStartup.Decide: with fewer than two arguments, the port text `argv[2]` is null (argc == 2) or read past the end of `argv` (argc <= 1), and the source hands it to the matcher. That is undefined either way, so the model stops at `MissingArgument` and claims nothing after it.
- AddressCheck.AddressMatchesAsCompiled: the wildcard is modelled as matching any character except '\n' and '\r'. The other ECMAScript line terminators (U+2028, U+2029) do not fit in the `char` the source matches on.
- Character classes are over Dafny's `char`; the source matches on bytes. For the literal-dot pattern only ASCII digits and the dot can be accepted, so the two agree. Under the wildcard reading they can differ: a non-ASCII character is one Dafny `char` but several source bytes (UTF-8 'é' is C3 A9), so `AddressMatchesAsCompiled` agrees with the source only on single-byte text.

## Findings

| source | as written | input that shows it | evidently intended | confidence | as-written member | corrected member |
|---|---|---|---|---|---|---|
| client.cpp:60 | the separator `\.` is written in an ordinary string literal, so the pattern receives a bare `.`, which matches any character but a line terminator | "1x2x3x4", and "1111111" read as four one-digit groups | a literal dot between the four groups | not executed; medium: it depends on the compiler keeping the character after an unknown escape, as GCC and Clang do with a warning | `AddressCheck.CompiledAcceptsNonAddresses` | `AddressCheck.AddressMatchesIff` |
