/** The relay's pure decisions: the reply text built from a finished command row, the
    poll bound, the client address behind a proxy, the private-network test for agent
    connections, the agent admission rule, the bearer-token test of the listing endpoint
    and the listing's output cap. */
module RelayRules {
  import opened Base
  import opened Text
  import opened Wire

  const NotConnectedReply := "Error: Mac agent is not connected. Please ensure the agent is running."
  const SendFailedReply := "Error: Failed to send command to agent"
  const PollTimeoutReply := "Command timed out waiting for response"
  const NoOutputReply := "(no output)"

  /** Python's `column or ""` for a text column that may be NULL. */
  function OrEmpty(x: Option<string>): string
  {
    x.GetOr("")
  }

  function StderrPart(error: string): string
  {
    if error != "" then "\n[stderr]: " + error else ""
  }

  function ExitCodeLabel(code: int): string
  {
    "[exit_code: " + IntToString(code) + "]"
  }

  function ExitCodePart(exitCode: Option<int>): string
  {
    match exitCode
    case Some(c) => "\n" + ExitCodeLabel(c)
    case None => ""
  }

  /** The reply text before stripping: output, then the stderr part, then the exit code part. */
  function RawResultText(output: Option<string>, error: Option<string>, exitCode: Option<int>): string
  {
    OrEmpty(output) + StderrPart(OrEmpty(error)) + ExitCodePart(exitCode)
  }

  /** The text `execute_command` returns for a finished row: the raw text stripped, or
      `"(no output)"` when nothing but whitespace is left. */
  function ResultText(output: Option<string>, error: Option<string>, exitCode: Option<int>): (r: string)
    ensures r != [] && !IsSpace(r[0]) && !IsSpace(r[|r| - 1])
    ensures AllSpace(RawResultText(output, error, exitCode)) ==> r == NoOutputReply
    ensures !AllSpace(RawResultText(output, error, exitCode)) ==> r == Strip(RawResultText(output, error, exitCode))
  {
    StripSpec(RawResultText(output, error, exitCode));
    var t := Strip(RawResultText(output, error, exitCode));
    if t == "" then NoOutputReply else t
  }

  /** An empty error column reads like a NULL one: it adds nothing to the reply. */
  lemma EmptyErrorAddsNothing(output: Option<string>, error: Option<string>, exitCode: Option<int>)
    requires OrEmpty(error) == ""
    ensures ResultText(output, error, exitCode) == ResultText(output, None, exitCode)
  {
  }

  /** A non-empty error that ends in a visible character is reported after the output,
      behind `"[stderr]: "`, and only the exit code part follows it. */
  lemma ResultEndsWithStderr(output: Option<string>, e: string, exitCode: Option<int>)
    requires e != [] && !IsSpace(e[|e| - 1])
    ensures EndsWith(ResultText(output, Some(e), exitCode), "[stderr]: " + e + ExitCodePart(exitCode))
  {
    var suffix := "[stderr]: " + e + ExitCodePart(exitCode);
    StderrRaw(OrEmpty(output), e, ExitCodePart(exitCode));
    StderrSuffixVisible(e, exitCode);
    VisibleSuffixSurvives(OrEmpty(output) + "\n", suffix);
  }

  lemma StderrRaw(o: string, e: string, tail: string)
    requires e != []
    ensures o + StderrPart(e) + tail == (o + "\n") + ("[stderr]: " + e + tail)
  {
    var marked := "[stderr]: " + e;
    assert StderrPart(e) == "\n" + marked;
    SeqAssoc(o, "\n" + marked, tail);
    SeqAssoc("\n", marked, tail);
    SeqAssoc(o, "\n", marked + tail);
  }

  lemma StderrSuffixVisible(e: string, exitCode: Option<int>)
    requires e != [] && !IsSpace(e[|e| - 1])
    ensures var suffix := "[stderr]: " + e + ExitCodePart(exitCode);
            suffix != [] && !IsSpace(suffix[0]) && !IsSpace(suffix[|suffix| - 1])
  {
    var tail := ExitCodePart(exitCode);
    var suffix := "[stderr]: " + e + tail;
    assert suffix[0] == '[';
    if exitCode.Some? {
      var tag := ExitCodeLabel(exitCode.value);
      assert tag[|tag| - 1] == ']';
      assert suffix[|suffix| - 1] == tail[|tail| - 1] == ']';
    } else {
      assert suffix[|suffix| - 1] == e[|e| - 1];
    }
  }

  /** Text that ends with a suffix visible at both ends is more than whitespace, and
      keeps that suffix when stripped. */
  lemma VisibleSuffixSurvives(pre: string, suffix: string)
    requires suffix != [] && !IsSpace(suffix[0]) && !IsSpace(suffix[|suffix| - 1])
    ensures !AllSpace(pre + suffix) && EndsWith(Strip(pre + suffix), suffix)
  {
    var s := pre + suffix;
    assert s[|pre|..] == suffix;
    assert s[|pre|] == suffix[0];
    SuffixSurvivesStrip(s, suffix);
  }

  /** A present exit code always ends the reply text. */
  lemma ResultEndsWithExitCode(output: Option<string>, error: Option<string>, code: int)
    ensures EndsWith(ResultText(output, error, Some(code)), ExitCodeLabel(code))
  {
    var pre := OrEmpty(output) + StderrPart(OrEmpty(error));
    var tag := ExitCodeLabel(code);
    SeqAssoc(pre, "\n", tag);
    assert tag[0] == '[' && tag[|tag| - 1] == ']';
    VisibleSuffixSurvives(pre + "\n", tag);
  }

  /** What follows the output opens with a newline and a bracket. */
  lemma TrailerOpensBracket(error: Option<string>, exitCode: Option<int>)
    requires OrEmpty(error) != "" || exitCode.Some?
    ensures var rest := StderrPart(OrEmpty(error)) + ExitCodePart(exitCode);
            |rest| >= 2 && rest[1] == '['
  {
    if OrEmpty(error) != "" {
      assert StderrPart(OrEmpty(error))[1] == '[';
    } else {
      assert ExitCodePart(exitCode) == "\n" + ExitCodeLabel(exitCode.value);
    }
  }

  /** Output that starts with a visible character starts the reply text, whenever
      something follows it. */
  lemma ResultStartsWithOutput(o: string, error: Option<string>, exitCode: Option<int>)
    requires o != [] && !IsSpace(o[0])
    requires OrEmpty(error) != "" || exitCode.Some?
    ensures StartsWith(ResultText(Some(o), error, exitCode), o)
  {
    var raw := RawResultText(Some(o), error, exitCode);
    var rest := StderrPart(OrEmpty(error)) + ExitCodePart(exitCode);
    TrailerOpensBracket(error, exitCode);
    assert OrEmpty(Some(o)) == o;
    var a, b := StderrPart(OrEmpty(error)), ExitCodePart(exitCode);
    assert raw == o + a + b;
    SeqAssoc(o, a, b);
    assert raw[..|o|] == o;
    assert raw[|o| + 1] == rest[1];
    PrefixSurvivesStrip(raw, o, |o| + 1);
  }

  /** A row with no output, no error text and no exit code reads as `"(no output)"`. */
  lemma EmptyResultText(output: Option<string>, error: Option<string>)
    requires OrEmpty(output) == "" && OrEmpty(error) == ""
    ensures ResultText(output, error, None) == NoOutputReply
  {
    assert RawResultText(output, error, None) == "";
  }

  /** The number of reads `execute_command` makes: `range(timeout * 2 + 10)`, empty when
      that count is not positive. */
  function PollBound(timeout: int): (n: nat)
    ensures timeout >= -5 ==> n == timeout * 2 + 10
    ensures timeout < -5 ==> n == 0
  {
    if timeout * 2 + 10 > 0 then timeout * 2 + 10 else 0
  }

  /** `get_client_ip`: the first comma-separated field of a non-empty `X-Forwarded-For`
      header, stripped; otherwise the host of the direct peer, or `""` without one. */
  function ClientIp(forwarded: Option<string>, clientHost: Option<string>): (ip: string)
    ensures forwarded.GetOr("") != "" ==>
              ip == Strip(FirstField(forwarded.value, ',')) && ',' !in ip
    ensures forwarded.GetOr("") == "" ==> ip == clientHost.GetOr("")
  {
    var f := forwarded.GetOr("");
    if f != "" then
      SplitHead(f, ',');
      Strip(Split(f, ',')[0])
    else
      clientHost.GetOr("")
  }

  /** A first field without surrounding whitespace is returned as it stands. */
  lemma ClientIpSingleHop(forwarded: string, clientHost: Option<string>)
    requires forwarded != [] && ',' !in forwarded
    requires !IsSpace(forwarded[0]) && !IsSpace(forwarded[|forwarded| - 1])
    ensures ClientIp(Some(forwarded), clientHost) == forwarded
  {
    FirstFieldWithoutSeparator(forwarded, ',');
    StripVisible(forwarded);
  }

  /** An address as the `ipaddress` module parses it: its version and its integer value. */
  datatype IpAddress = V4(bits: int) | V6(bits: int)

  function Pow2(n: nat): (p: nat)
    ensures p >= 1
  {
    if n == 0 then 1 else 2 * Pow2(n - 1)
  }

  lemma {:induction false} Pow2Add(a: nat, b: nat)
    ensures Pow2(a + b) == Pow2(a) * Pow2(b)
    decreases a
  {
    if a > 0 {
      Pow2Add(a - 1, b);
      assert Pow2(a + b) == 2 * Pow2(a - 1 + b);
    }
  }

  /** The block sizes of the three networks below. */
  lemma Pow2Values()
    ensures Pow2(22) == 0x40_0000 && Pow2(24) == 0x100_0000
    ensures Pow2(112) == 0x1_0000_0000_0000_0000_0000_0000_0000
  {
    assert Pow2(8) == 256;
    assert Pow2(6) == 64;
    Pow2Add(8, 8); Pow2Add(16, 6); Pow2Add(16, 8); Pow2Add(16, 16);
    Pow2Add(32, 32); Pow2Add(64, 32); Pow2Add(96, 16);
  }

  /** A CIDR block: a base address, a prefix length and the address width in bits. */
  datatype Network = Network(base: nat, prefixLen: nat, width: nat)

  /** Python's `address in network`: the address agrees with the base on the top
      `prefixLen` bits (`address & netmask == base` for an aligned base). */
  predicate InNetwork(bits: int, net: Network)
    requires net.prefixLen <= net.width
  {
    bits / Pow2(net.width - net.prefixLen) == net.base / Pow2(net.width - net.prefixLen)
  }

  /** `100.64.0.0/10`, the carrier-grade NAT range a Tailscale network uses. */
  const TailscaleNetwork := Network(0x6440_0000, 10, 32)
  /** `fdaa::/16`, the Fly.io private network. */
  const FlyNetwork := Network(0xfdaa_0000_0000_0000_0000_0000_0000_0000, 16, 128)
  /** `127.0.0.0/8`, the IPv4 loopback block. */
  const V4Loopback := Network(0x7f00_0000, 8, 32)

  /** `ip.is_loopback`: `127.0.0.0/8` for IPv4, `::1` alone for IPv6. */
  predicate IsLoopback(ip: IpAddress)
  {
    match ip
    case V4(b) => InNetwork(b, V4Loopback)
    case V6(b) => b == 1
  }

  /** `is_private_network_ip` on the result of parsing the text (`None`: `ValueError`). */
  predicate IsPrivateNetworkIp(parsed: Option<IpAddress>)
  {
    match parsed
    case None => false
    case Some(ip) =>
      if IsLoopback(ip) then true
      else match ip
        case V4(b) => InNetwork(b, TailscaleNetwork)
        case V6(b) => InNetwork(b, FlyNetwork)
  }

  /** For IPv4 the test is membership of `127.0.0.0 - 127.255.255.255` or
      `100.64.0.0 - 100.127.255.255`. */
  lemma PrivateV4Ranges(b: int)
    ensures IsPrivateNetworkIp(Some(V4(b))) <==>
              (0x7f00_0000 <= b <= 0x7fff_ffff) || (0x6440_0000 <= b <= 0x647f_ffff)
  {
    Pow2Values();
  }

  /** For IPv6 the test is `::1` or membership of `fdaa:: - fdaa:ffff:...:ffff`. */
  lemma PrivateV6Ranges(b: int)
    ensures IsPrivateNetworkIp(Some(V6(b))) <==>
              b == 1 ||
              (0xfdaa_0000_0000_0000_0000_0000_0000_0000 <= b <= 0xfdaa_ffff_ffff_ffff_ffff_ffff_ffff_ffff)
  {
    Pow2Values();
  }

  /** Every character is ASCII. */
  predicate IsAscii(s: string)
  {
    forall i :: 0 <= i < |s| ==> s[i] as int < 0x80
  }

  const NonAsciiCompareError := "comparing strings with non-ASCII characters is not supported"

  /** `secrets.compare_digest` on two `str` values: equality, except that it raises a
      `TypeError` when either side holds a non-ASCII character. */
  function CompareDigest(x: string, y: string): (r: Attempt<bool>)
    ensures r.Raises? <==> !IsAscii(x) || !IsAscii(y)
    ensures r.Ok? ==> (r.value <==> x == y)
  {
    if IsAscii(x) && IsAscii(y) then Ok(x == y) else Raises(NonAsciiCompareError)
  }

  /** The `get_commands` authorisation: an `Authorization` header (absent reads as `""`)
      must start with `"Bearer "`, and only then is the rest compared with the secret,
      a comparison that may raise. */
  function Authorization(header: Option<string>, secret: string): Attempt<bool>
  {
    var auth := header.GetOr("");
    if !StartsWith(auth, "Bearer ") then Ok(false) else CompareDigest(auth[7..], secret)
  }

  /** Access is granted exactly for `"Bearer "` followed by the secret, when the secret
      is ASCII; an ASCII header never raises; and with a non-ASCII secret every bearer
      header raises. */
  lemma AuthorizedExactly(header: Option<string>, secret: string)
    ensures Authorization(header, secret) == Ok(true) <==>
              header.GetOr("") == "Bearer " + secret && IsAscii(secret)
    ensures IsAscii(header.GetOr("")) && IsAscii(secret) ==> Authorization(header, secret).Ok?
    ensures !IsAscii(secret) ==>
              (Authorization(header, secret).Raises? <==> StartsWith(header.GetOr(""), "Bearer "))
  {
    var auth := header.GetOr("");
    if StartsWith(auth, "Bearer ") {
      assert auth == auth[..7] + auth[7..];
      assert forall i :: 0 <= i < |auth[7..]| ==> auth[7..][i] == auth[i + 7];
    }
    if auth == "Bearer " + secret {
      assert auth[..7] == "Bearer ";
      assert auth[7..] == secret;
    }
  }

  /** The verdict on an agent's websocket before it becomes the live connection: let
      in, closed with a code and reason, or the handler raised. */
  datatype Admission = Admitted | Refused(code: int, reason: string) | Raised(message: string)

  /** The admission checks of `agent_websocket`, in order: the private-network rule when
      it is configured (the client address goes through `parse`, the `ipaddress`
      parser), then the `token` query parameter, which must be present and non-empty
      before it is compared with the secret. */
  function AdmitAgent(requirePrivate: bool, forwarded: Option<string>, clientHost: Option<string>,
                      parse: string -> Option<IpAddress>, token: Option<string>, secret: string): (a: Admission)
    ensures a.Admitted? <==>
              (!requirePrivate || IsPrivateNetworkIp(parse(ClientIp(forwarded, clientHost)))) &&
              token == Some(secret) && secret != "" && IsAscii(secret)
    ensures a.Raised? <==>
              (!requirePrivate || IsPrivateNetworkIp(parse(ClientIp(forwarded, clientHost)))) &&
              token.Some? && token.value != "" && (!IsAscii(token.value) || !IsAscii(secret))
    ensures a.Raised? ==> a.message == NonAsciiCompareError
    ensures a.Refused? ==> a.code == 4003
    ensures requirePrivate && !IsPrivateNetworkIp(parse(ClientIp(forwarded, clientHost))) ==>
              a == Refused(4003, "Forbidden: Private network required")
  {
    if requirePrivate && !IsPrivateNetworkIp(parse(ClientIp(forwarded, clientHost))) then
      Refused(4003, "Forbidden: Private network required")
    else if token.None? || token.value == "" then
      Refused(4003, "Forbidden")
    else
      match CompareDigest(token.value, secret)
      case Raises(message) => Raised(message)
      case Ok(same) => if same then Admitted else Refused(4003, "Forbidden")
  }

  /** The listing's output column: its first 500 characters, and NULL when it is NULL
      or empty. */
  function CapOutput(output: Option<string>): (r: Option<string>)
    ensures r.Some? <==> output.Some? && output.value != ""
    ensures r.Some? ==> |r.value| == (if |output.value| < 500 then |output.value| else 500)
    ensures r.Some? ==> StartsWith(output.value, r.value)
  {
    match output
    case Some(o) =>
      if o == "" then None else if |o| <= 500 then Some(o) else Some(o[..500])
    case None => None
  }
}
