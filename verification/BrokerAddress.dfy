/** The broker address of first-time setup: which hosts and ports are accepted, how they are
    normalised and printed, and that the printed URI splits back into them. */
module BrokerAddress {
  import opened Text

  /** net.ParseIP, left abstract: once '%' is ruled out it accepts only non-empty text over
      hexadecimal digits, ':' and '.'. */
  ghost predicate IPText(isIP: string -> bool)
  {
    forall s | isIP(s) && '%' !in s :: s != "" && forall c | c in s :: IPChar(c)
  }

  predicate IPChar(c: char)
  {
    '0' <= c <= '9' || 'a' <= c <= 'f' || 'A' <= c <= 'F' || c == ':' || c == '.'
  }

  // ------------------------------------------------------------------- DNS names

  predicate LabelChar(c: char)
  {
    'a' <= c <= 'z' || 'A' <= c <= 'Z' || '0' <= c <= '9' || c == '-'
  }

  /** A label: 1 to 63 letters, digits and hyphens, not starting or ending with a hyphen. */
  predicate ValidLabel(part: string)
  {
    && 1 <= |part| <= 63
    && (forall c | c in part :: LabelChar(c))
    && part[0] != '-' && part[|part| - 1] != '-'
  }

  predicate ValidDNSName(host: string)
  {
    |host| <= 253 && forall part | part in Split(host, '.') :: ValidLabel(part)
  }

  method ValidateDNSName(host: string) returns (ok: bool)
    ensures ok <==> ValidDNSName(host)
    ensures ok <==> |host| <= 253 && forall part | part in Split(host, '.') ::
                      && 1 <= |part| <= 63 && part[0] != '-' && part[|part| - 1] != '-'
                      && forall c | c in part :: 'a' <= c <= 'z' || 'A' <= c <= 'Z' || '0' <= c <= '9' || c == '-'
  {
    if |host| > 253 {
      return false;
    }
    var parts := Split(host, '.');
    for k := 0 to |parts|
      invariant forall j | 0 <= j < k :: ValidLabel(parts[j])
    {
      var part := parts[k];
      assert part in parts;
      if |part| == 0 || |part| > 63 {
        return false;
      }
      for i := 0 to |part|
        invariant forall j | 0 <= j < i :: LabelChar(part[j]) && !(part[j] == '-' && (j == 0 || j == |part| - 1))
      {
        var r := part[i];
        var valid := 'a' <= r <= 'z' || 'A' <= r <= 'Z' || '0' <= r <= '9' || r == '-';
        if !valid || (r == '-' && (i == 0 || i == |part| - 1)) {
          assert part[i] in part && !ValidLabel(part);
          return false;
        }
      }
    }
    return true;
  }

  /** Dotted and made of digits and dots only. */
  predicate DottedDigits(host: string)
  {
    '.' in host && forall c | c in host :: IsDigit(c) || c == '.'
  }

  method LooksLikeIPv4(host: string) returns (yes: bool)
    ensures yes <==> DottedDigits(host)
    ensures yes <==> '.' in host && forall c | c in host :: '0' <= c <= '9' || c == '.'
  {
    if '.' !in host {
      return false;
    }
    for i := 0 to |host|
      invariant forall j | 0 <= j < i :: IsDigit(host[j]) || host[j] == '.'
    {
      if (host[i] < '0' || host[i] > '9') && host[i] != '.' {
        assert host[i] in host;
        return false;
      }
    }
    return true;
  }

  // ----------------------------------------------------------------- normalisation

  datatype HostError =
    | Required
    | InvalidBrackets
    | Scoped
    | Whitespace
    | NotAHost
    | InvalidIPv6
    | InvalidIPv4
    | InvalidName

  predicate Bracketed(host: string)
  {
    host != "" && (host[0] == '[' || host[|host| - 1] == ']')
  }

  predicate HasSchemePathOrCredentials(host: string)
  {
    (exists i | 0 <= i && i + 2 < |host| :: host[i] == ':' && host[i + 1] == '/' && host[i + 2] == '/')
    || exists c | c in host :: c in "/\\@?#"
  }

  /** The text that an accepted value names as host, before it is judged. */
  function Candidate(value: string): Result<string, HostError>
  {
    var host := TrimSpace(value);
    if host == "" then Err(Required)
    else if Bracketed(host) then
      if |host| < 3 || host[0] != '[' || host[|host| - 1] != ']' then Err(InvalidBrackets)
      else Ok(host[1..|host| - 1])
    else Ok(host)
  }

  function Judge(host: string, isIP: string -> bool): Result<string, HostError>
  {
    if '%' in host then Err(Scoped)
    else if exists c | c in host :: IsSpace(c) || IsControl(c) then Err(Whitespace)
    else if HasSchemePathOrCredentials(host) then Err(NotAHost)
    else if isIP(host) then Ok(host)
    else if ':' in host then Err(InvalidIPv6)
    else if DottedDigits(host) then Err(InvalidIPv4)
    else if ValidDNSName(host) then Ok(host)
    else Err(InvalidName)
  }

  function Normalized(value: string, isIP: string -> bool): Result<string, HostError>
  {
    match Candidate(value)
    case Err(e) => Err(e)
    case Ok(host) => Judge(host, isIP)
  }

  method NormalizeBrokerHost(value: string, isIP: string -> bool) returns (r: Result<string, HostError>)
    ensures r == Normalized(value, isIP)
  {
    var host := TrimSpace(value);
    if host == "" {
      return Err(Required);
    }
    if host[0] == '[' || host[|host| - 1] == ']' {
      if |host| < 3 || host[0] != '[' || host[|host| - 1] != ']' {
        return Err(InvalidBrackets);
      }
      host := host[1..|host| - 1];
    }
    if '%' in host {
      return Err(Scoped);
    }
    for i := 0 to |host|
      invariant forall j | 0 <= j < i :: !IsSpace(host[j]) && !IsControl(host[j])
    {
      if IsSpace(host[i]) || IsControl(host[i]) {
        assert host[i] in host;
        return Err(Whitespace);
      }
    }
    if HasSchemePathOrCredentials(host) {
      return Err(NotAHost);
    }
    if isIP(host) {
      return Ok(host);
    }
    if ':' in host {
      return Err(InvalidIPv6);
    }
    var dotted := LooksLikeIPv4(host);
    if dotted {
      return Err(InvalidIPv4);
    }
    var name := ValidateDNSName(host);
    return if name then Ok(host) else Err(InvalidName);
  }

  predicate HasBadBrackets(text: string)
  {
    && text != "" && (text[0] == '[' || text[|text| - 1] == ']')
    && !(|text| >= 3 && text[0] == '[' && text[|text| - 1] == ']')
  }

  lemma BlankExactly(value: string)
    ensures TrimSpace(value) == "" <==> AllSpaces(value)
  {
    var left := TrimLeftSplits(value);
    var right := TrimRightSplits(TrimLeft(value));
    assert value == left + (TrimSpace(value) + right);
    TrimSpaceTrimmed(value);
    if TrimSpace(value) != "" {
      assert value[|left|] == TrimSpace(value)[0];
    }
  }

  /** The first errors name what is wrong around the host: nothing but white space, or a bracket without
      its partner or with nothing inside. */
  lemma OuterErrorsExactly(value: string)
    ensures Candidate(value) == Err(Required) <==> AllSpaces(value)
    ensures Candidate(value) == Err(InvalidBrackets) <==> HasBadBrackets(TrimSpace(value))
    ensures Candidate(value).Err? ==> Candidate(value).error in {Required, InvalidBrackets}
  {
    BlankExactly(value);
  }

  /** The others name a cause that is in the host: a percent sign, white space or a control character,
      part of a URL, a colon in what is no address, digits and dots that are none, or a bad name. */
  lemma InnerErrorsNameCause(host: string, isIP: string -> bool)
    ensures Judge(host, isIP) == Err(Scoped) <==> '%' in host
    ensures Judge(host, isIP) == Err(Whitespace) ==> exists c | c in host :: IsSpace(c) || IsControl(c)
    ensures Judge(host, isIP) == Err(NotAHost) ==>
              '/' in host || '\\' in host || '@' in host || '?' in host || '#' in host
    ensures Judge(host, isIP) == Err(InvalidIPv6) ==> ':' in host && !isIP(host)
    ensures Judge(host, isIP) == Err(InvalidIPv4) ==>
              '.' in host && !isIP(host) && forall c | c in host :: '0' <= c <= '9' || c == '.'
    ensures Judge(host, isIP) == Err(InvalidName) ==>
              ':' !in host && !isIP(host) && !ValidDNSName(host) && !DottedDigits(host)
    ensures Judge(host, isIP).Err? ==>
              Judge(host, isIP).error in {Scoped, Whitespace, NotAHost, InvalidIPv6, InvalidIPv4, InvalidName}
  {
    if HasSchemePathOrCredentials(host) {
      PathCharacter(host);
    }
  }

  lemma PathCharacter(host: string)
    requires HasSchemePathOrCredentials(host)
    ensures '/' in host || '\\' in host || '@' in host || '?' in host || '#' in host
  {
    if i :| 0 <= i && i + 2 < |host| && host[i] == ':' && host[i + 1] == '/' && host[i + 2] == '/' {
      assert host[i + 1] in host;
    } else {
      var c :| c in host && c in "/\\@?#";
      assert c == '/' || c == '\\' || c == '@' || c == '?' || c == '#';
    }
  }

  /** What an accepted host looks like: an address, or a name without dots-and-digits confusion. */
  ghost predicate AcceptedHost(host: string, isIP: string -> bool)
  {
    && host != "" && '%' !in host
    && (isIP(host) || (ValidDNSName(host) && ':' !in host && !DottedDigits(host)))
  }

  predicate HostChar(c: char)
  {
    LabelChar(c) || c == '.' || c == ':'
  }

  lemma AcceptedHostChars(host: string, isIP: string -> bool)
    requires IPText(isIP) && AcceptedHost(host, isIP)
    ensures forall c | c in host :: HostChar(c)
    ensures Trimmed(host) && !Bracketed(host) && !HasSchemePathOrCredentials(host)
  {
    if !isIP(host) {
      DNSNameChars(host);
    }
    forall i | 0 <= i < |host| ensures HostChar(host[i]) {
      assert host[i] in host;
    }
  }

  lemma DNSNameChars(host: string)
    requires ValidDNSName(host)
    ensures forall c | c in host :: LabelChar(c) || c == '.'
    ensures host != ""
  {
    var parts := Split(host, '.');
    JoinSplit(host, '.');
    assert Split("", '.') == [""];
    assert parts[0] in parts;
    JoinChars(parts, '.');
  }

  lemma {:induction false} JoinChars(levels: seq<string>, sep: char)
    ensures forall c | c in Join(levels, sep) :: c == sep || exists level | level in levels :: c in level
  {
    if |levels| > 1 {
      JoinChars(levels[1..], sep);
      forall c | c in Join(levels, sep) ensures c == sep || exists level | level in levels :: c in level {
        if c in levels[0] {
        } else if c != sep {
          assert c in Join(levels[1..], sep);
          var level :| level in levels[1..] && c in level;
          assert level in levels;
        }
      }
    }
  }

  /** ACCEPTANCE. A value is accepted with result h exactly when h is an accepted host and the trimmed
      value is h or h in brackets. */
  lemma NormalizedExactly(value: string, isIP: string -> bool, h: string)
    requires IPText(isIP)
    ensures Normalized(value, isIP) == Ok(h)
       <==> AcceptedHost(h, isIP) && (TrimSpace(value) == h || TrimSpace(value) == "[" + h + "]")
  {
    var t := TrimSpace(value);
    JudgedExactly(h, isIP, h);
    if AcceptedHost(h, isIP) {
      AcceptedHostChars(h, isIP);
      if t == "[" + h + "]" {
        assert t[1..|t| - 1] == h;
      }
    }
    if Normalized(value, isIP) == Ok(h) {
      if Bracketed(t) {
        assert t == "[" + t[1..|t| - 1] + "]";
      }
      JudgedExactly(Candidate(value).value, isIP, h);
    }
  }

  lemma JudgedExactly(host: string, isIP: string -> bool, h: string)
    requires IPText(isIP)
    ensures Judge(host, isIP) == Ok(h) <==> host == h && AcceptedHost(h, isIP)
  {
    if AcceptedHost(host, isIP) {
      AcceptedHostChars(host, isIP);
      forall c | c in host ensures !IsSpace(c) && !IsControl(c) {
        assert HostChar(c);
      }
    }
    if Judge(host, isIP).Ok? && !isIP(host) {
      DNSNameChars(host);
    }
  }

  /** Normalising twice is normalising once, and brackets around an accepted host are dropped. */
  lemma NormalizationIsIdempotent(value: string, isIP: string -> bool)
    requires IPText(isIP) && Normalized(value, isIP).Ok?
    ensures var h := Normalized(value, isIP).value;
            Normalized(h, isIP) == Ok(h) && Normalized("[" + h + "]", isIP) == Ok(h)
  {
    var h := Normalized(value, isIP).value;
    NormalizedExactly(value, isIP, h);
    AcceptedHostChars(h, isIP);
    TrimSpaceTrimmed(h);
    TrimSpaceTrimmed("[" + h + "]");
    NormalizedExactly(h, isIP, h);
    NormalizedExactly("[" + h + "]", isIP, h);
  }

  // ------------------------------------------------------------------------ ports

  /** The port that a trimmed text denotes, if it is a decimal number from 1 to 65535. */
  function PortOf(text: string): Option<nat>
  {
    if text == "" then Some(1883)
    else if AllDigits(text) && 1 <= DecimalValue(text) <= 65535 then Some(DecimalValue(text))
    else None
  }

  /** strconv.ParseUint(s, 10, 16): a number of more than 16 bits is an error. */
  method ParseUint16(s: string) returns (n: Option<nat>)
    requires AllDigits(s)
    ensures n == if DecimalValue(s) < 0x1_0000 then Some(DecimalValue(s)) else None
  {
    var value := 0;
    for i := 0 to |s|
      invariant value == DecimalValue(s[..i]) < 0x1_0000
    {
      assert s[..i + 1][..i] == s[..i];
      value := 10 * value + DigitValue(s[i]);
      if value >= 0x1_0000 {
        DecimalValueMonotone(s, i + 1);
        return None;
      }
    }
    assert s[..|s|] == s;
    return Some(value);
  }

  method ParseBrokerPort(value: string) returns (port: Option<nat>)
    ensures port == PortOf(TrimSpace(value))
    ensures TrimSpace(value) == "" ==> port == Some(1883)
    ensures TrimSpace(value) != "" ==>
              forall n :: port == Some(n)
                     <==> AllDigits(TrimSpace(value)) && n == DecimalValue(TrimSpace(value)) && 1 <= n <= 65535
  {
    var text := TrimSpace(value);
    if text == "" {
      return Some(1883);
    }
    for i := 0 to |text|
      invariant forall j | 0 <= j < i :: IsDigit(text[j])
    {
      if text[i] < '0' || text[i] > '9' {
        return None;
      }
    }
    var n := ParseUint16(text);
    if n.None? || n.value == 0 {
      return None;
    }
    return n;
  }

  lemma DigitsTrimmed(s: string)
    requires AllDigits(s)
    ensures Trimmed(s)
  {}

  /** Every port is read back from its decimal form. */
  lemma PrintedPortParses(port: nat)
    requires 1 <= port <= 65535
    ensures PortOf(TrimSpace(Decimal(port))) == Some(port)
  {
    DecimalRoundTrip(port);
    DigitsTrimmed(Decimal(port));
    TrimSpaceTrimmed(Decimal(port));
  }

  // -------------------------------------------------------------------------- URI

  /** net.JoinHostPort */
  function JoinHostPort(host: string, port: string): string
  {
    if ':' in host then "[" + host + "]:" + port else host + ":" + port
  }

  /** An accepted host and a port need no escaping in the host part of a URI. */
  function BrokerURI(host: string, port: nat): string
  {
    "tcp://" + JoinHostPort(host, Decimal(port))
  }

  function IndexOf(s: string, c: char): nat
    ensures IndexOf(s, c) <= |s|
  {
    if s == "" || s[0] == c then 0 else 1 + IndexOf(s[1..], c)
  }

  /** Section 3.2 of RFC 3986: the authority follows "//" and ends before '/', '?' or '#'. */
  function AuthorityOf(uri: string): Option<string>
  {
    var scheme := IndexOf(uri, ':');
    if scheme + 3 > |uri| || uri[scheme..scheme + 3] != "://" then None
    else
      var rest := uri[scheme + 3..];
      Some(rest[..Min(IndexOf(rest, '/'), Min(IndexOf(rest, '?'), IndexOf(rest, '#')))])
  }

  function Min(a: nat, b: nat): nat { if a < b then a else b }

  /** Sections 3.2.2 and 3.2.3: an IP literal stands in brackets, a name or IPv4 address has no
      colon, and a port follows the colon after the host. */
  function SplitAuthority(authority: string): Option<(string, string)>
  {
    if authority != "" && authority[0] == '[' then
      var close := IndexOf(authority, ']');
      if close + 1 < |authority| && authority[close + 1] == ':'
      then Some((authority[1..close], authority[close + 2..])) else None
    else
      var colon := IndexOf(authority, ':');
      if colon < |authority| then Some((authority[..colon], authority[colon + 1..])) else None
  }

  lemma {:induction false} IndexOfFirst(prefix: string, c: char, rest: string)
    requires c !in prefix
    ensures IndexOf(prefix + [c] + rest, c) == |prefix|
  {
    if prefix != "" {
      IndexOfFirst(prefix[1..], c, rest);
      assert (prefix + [c] + rest)[1..] == prefix[1..] + [c] + rest;
    }
  }

  lemma {:induction false} IndexOfAbsent(s: string, c: char)
    requires c !in s
    ensures IndexOf(s, c) == |s|
  {
    if s != "" {
      IndexOfAbsent(s[1..], c);
    }
  }

  /** ROUND TRIP. Splitting the printed URI returns the host and the port. */
  lemma BrokerURIRoundTrip(host: string, port: nat, isIP: string -> bool)
    requires IPText(isIP) && AcceptedHost(host, isIP) && 1 <= port <= 65535
    ensures AuthorityOf(BrokerURI(host, port)) == Some(JoinHostPort(host, Decimal(port)))
    ensures SplitAuthority(JoinHostPort(host, Decimal(port))) == Some((host, Decimal(port)))
    ensures PortOf(Decimal(port)) == Some(port)
  {
    AcceptedHostChars(host, isIP);
    DecimalRoundTrip(port);
    AuthorityIsWhole(host, Decimal(port));
    AuthoritySplits(host, Decimal(port));
  }

  lemma AuthorityIsWhole(host: string, port: string)
    requires (forall c | c in host :: HostChar(c)) && AllDigits(port)
    ensures AuthorityOf("tcp://" + JoinHostPort(host, port)) == Some(JoinHostPort(host, port))
  {
    var authority := JoinHostPort(host, port);
    var uri := "tcp://" + authority;
    assert uri == "tcp" + [':'] + ("//" + authority);
    IndexOfFirst("tcp", ':', "//" + authority);
    assert uri[3..6] == "://" && uri[6..] == authority;
    AuthorityChars(host, port);
    IndexOfAbsent(authority, '/');
    IndexOfAbsent(authority, '?');
    IndexOfAbsent(authority, '#');
    assert authority[..|authority|] == authority;
  }

  lemma AuthorityChars(host: string, port: string)
    requires (forall c | c in host :: HostChar(c)) && AllDigits(port)
    ensures forall c | c in JoinHostPort(host, port) :: HostChar(c) || c == '[' || c == ']'
  {
    forall c | c in port ensures HostChar(c) {}
  }

  lemma AuthoritySplits(host: string, port: string)
    requires host != "" && (forall c | c in host :: HostChar(c))
    ensures SplitAuthority(JoinHostPort(host, port)) == Some((host, port))
  {
    var authority := JoinHostPort(host, port);
    if ':' in host {
      assert authority == ("[" + host) + [']'] + (":" + port);
      IndexOfFirst("[" + host, ']', ":" + port);
      assert authority[1..1 + |host|] == host;
      assert authority[1 + |host| + 2..] == port;
    } else {
      assert authority == host + [':'] + port;
      IndexOfFirst(host, ':', port);
      assert host[0] in host && authority[0] == host[0];
      assert authority[..|host|] == host && authority[|host| + 1..] == port;
    }
  }

  /** Different accepted brokers print differently. */
  lemma BrokerURIInjective(h1: string, p1: nat, h2: string, p2: nat, isIP: string -> bool)
    requires IPText(isIP) && AcceptedHost(h1, isIP) && AcceptedHost(h2, isIP)
    requires 1 <= p1 <= 65535 && 1 <= p2 <= 65535
    requires BrokerURI(h1, p1) == BrokerURI(h2, p2)
    ensures h1 == h2 && p1 == p2
  {
    BrokerURIRoundTrip(h1, p1, isIP);
    BrokerURIRoundTrip(h2, p2, isIP);
  }
}
