/** URLs: src/url.cpp, `parse`, `parsePort` and `hostHeader`, and `url.build`
    (src/interpreter_setup.cpp). */
module Urls {
  import opened Wrappers
  import opened Query

  datatype UrlError = ControlCharacter | EmptyPort | PortOutOfRange | NonNumericPort
                    | UnterminatedLiteral | TextAfterLiteral | AmbiguousHost

  datatype Result<T> = Ok(value: T) | Fail(error: UrlError)

  datatype Authority = Authority(userinfo: string, host: string, hostIsIPv6: bool, port: Option<nat>)

  datatype Url = Url(scheme: string, authority: Authority, path: string, query: string, fragment: string)

  const NO_AUTHORITY := Authority("", "", false, None)

  // ---------------------------------------------------------------------------
  // Characters and cuts
  // ---------------------------------------------------------------------------

  predicate SchemeChar(c: char) {
    Alpha(c) || Digit(c) || c == '+' || c == '-' || c == '.'
  }

  predicate Control(c: char) {
    c == '\0' || c == '\r' || c == '\n'
  }

  predicate HasControl(s: string) {
    exists i | 0 <= i < |s| :: Control(s[i])
  }

  /** Section 3.1 of RFC 3986, without the colon. */
  predicate ValidScheme(s: string) {
    s != [] && Alpha(s[0]) && forall i | 0 <= i < |s| :: SchemeChar(s[i])
  }

  function LowerChar(c: char): char {
    if 'A' <= c <= 'Z' then 'a' + (c - 'A') else c
  }

  function Lower(s: string): (r: string)
    ensures |r| == |s|
  {
    seq(|s|, i requires 0 <= i < |s| => LowerChar(s[i]))
  }

  /** What stands before the first `c`, and what stands after it. */
  function Before(s: string, c: char): string {
    s[..Find(s, c)]
  }

  function After(s: string, c: char): string {
    if Find(s, c) < |s| then s[Find(s, c) + 1..] else []
  }

  /** std::string::rfind. */
  function FindLast(s: string, c: char): Option<nat> {
    if s == [] then None
    else if s[|s| - 1] == c then Some(|s| - 1)
    else FindLast(s[..|s| - 1], c)
  }

  lemma FindAfter(a: string, c: char, b: string)
    requires c !in a
    ensures Find(a + [c] + b, c) == |a|
    ensures Before(a + [c] + b, c) == a && After(a + [c] + b, c) == b
  {
    var s := a + [c] + b;
    forall i | 0 <= i < |a| ensures s[i] != c { assert s[i] == a[i]; }
    FindIs(s, c, 0, |a|);
  }

  lemma FindNone(a: string, c: char)
    requires c !in a
    ensures Find(a, c) == |a| && Before(a, c) == a && After(a, c) == []
  {
    FindIs(a, c, 0, |a|);
  }

  lemma {:induction false} FindLastIs(a: string, c: char, b: string)
    requires c !in b
    ensures FindLast(a + [c] + b, c) == Some(|a|)
    decreases |b|
  {
    var s := a + [c] + b;
    if b == [] {
      assert s[|s| - 1] == c;
    } else {
      var d := b[..|b| - 1];
      assert s[..|s| - 1] == a + [c] + d && s[|s| - 1] == b[|b| - 1];
      FindLastIs(a, c, d);
    }
  }

  lemma {:induction false} FindLastNone(a: string, c: char)
    requires c !in a
    ensures FindLast(a, c) == None
  {
    if a != [] { FindLastNone(a[..|a| - 1], c); }
  }

  // ---------------------------------------------------------------------------
  // Ports
  // ---------------------------------------------------------------------------

  function Number(s: string): nat
    requires forall i | 0 <= i < |s| :: Digit(s[i])
  {
    if s == [] then 0
    else
      assert Digit(s[|s| - 1]);
      Number(s[..|s| - 1]) * 10 + (s[|s| - 1] - '0') as nat
  }

  function PortOf(s: string): Result<nat> {
    if s == [] then Fail(EmptyPort)
    else if |s| > 5 then Fail(PortOutOfRange)
    else if exists i | 0 <= i < |s| :: !Digit(s[i]) then Fail(NonNumericPort)
    else if Number(s) > 65535 then Fail(PortOutOfRange)
    else Ok(Number(s))
  }

  method ParsePort(s: string) returns (r: Result<nat>)
    ensures r == PortOf(s)
  {
    if s == [] { return Fail(EmptyPort); }
    if |s| > 5 { return Fail(PortOutOfRange); }
    for i := 0 to |s|
      invariant forall k | 0 <= k < i :: Digit(s[k])
    {
      if !Digit(s[i]) { return Fail(NonNumericPort); }
    }
    var p := Number(s);
    if p > 65535 { return Fail(PortOutOfRange); }
    r := Ok(p);
  }

  /** std::to_string */
  function Decimal(n: nat): string {
    if n < 10 then ['0' + n as char] else Decimal(n / 10) + ['0' + (n % 10) as char]
  }

  lemma {:induction false} NumberOfDecimal(n: nat)
    ensures Decimal(n) != [] && forall i | 0 <= i < |Decimal(n)| :: Digit(Decimal(n)[i])
    ensures Number(Decimal(n)) == n
  {
    if n >= 10 {
      NumberOfDecimal(n / 10);
      var s := Decimal(n);
      assert s[..|s| - 1] == Decimal(n / 10);
    } else {
      assert Decimal(n)[..0] == [];
    }
  }

  function Pow10(k: nat): nat {
    if k == 0 then 1 else 10 * Pow10(k - 1)
  }

  lemma {:induction false} DecimalLength(n: nat, k: nat)
    requires k > 0 && n < Pow10(k)
    ensures |Decimal(n)| <= k
  {
    if n >= 10 { DecimalLength(n / 10, k - 1); }
  }

  /** A port that is printed is read back. */
  lemma PortOfDecimal(n: nat)
    requires n <= 65535
    ensures PortOf(Decimal(n)) == Ok(n)
  {
    NumberOfDecimal(n);
    assert Pow10(5) == 100000;
    DecimalLength(n, 5);
  }

  // ---------------------------------------------------------------------------
  // Host and port
  // ---------------------------------------------------------------------------

  function HostPortOf(userinfo: string, s: string): Result<Authority> {
    if s != [] && s[0] == '[' then
      var close := Find(s, ']');
      if close == |s| then Fail(UnterminatedLiteral)
      else
        var after := s[close + 1..];
        if after == [] then Ok(Authority(userinfo, s[1..close], true, None))
        else if after[0] != ':' then Fail(TextAfterLiteral)
        else
          var p := PortOf(after[1..]);
          if p.Fail? then Fail(p.error) else Ok(Authority(userinfo, s[1..close], true, Some(p.value)))
    else
      var first, last := Find(s, ':'), FindLast(s, ':');
      if first == |s| then Ok(Authority(userinfo, s, false, None))
      else if last != Some(first) then Fail(AmbiguousHost)
      else
        var p := PortOf(s[first + 1..]);
        if p.Fail? then Fail(p.error) else Ok(Authority(userinfo, s[..first], false, Some(p.value)))
  }

  function AuthorityOf(s: string): Result<Authority> {
    var at := FindLast(s, '@');
    if at.Some? && at.value < |s| then HostPortOf(s[..at.value], s[at.value + 1..]) else HostPortOf("", s)
  }

  function HostHeader(a: Authority): string {
    var h := if a.hostIsIPv6 then "[" + a.host + "]" else a.host;
    if a.port.Some? then h + ":" + Decimal(a.port.value) else h
  }

  /** A host as section 3.2.2 of RFC 3986 has it: an address literal without brackets, or
      a name without colons. */
  predicate HostIsPlain(a: Authority) {
    if a.hostIsIPv6 then ']' !in a.host else ':' !in a.host && (a.host != [] ==> a.host[0] != '[')
  }

  lemma LiteralRoundTrip(a: Authority)
    requires a.hostIsIPv6 && HostIsPlain(a) && (a.port.Some? ==> a.port.value <= 65535)
    ensures HostPortOf(a.userinfo, HostHeader(a)) == Ok(a)
  {
    var s, front := HostHeader(a), ['['] + a.host;
    var tail := if a.port.Some? then [':'] + Decimal(a.port.value) else [];
    assert s == front + [']'] + tail;
    FindAfter(front, ']', tail);
    assert s[0] == '[' && s[1..|front|] == a.host && s[|front| + 1..] == tail;
    if a.port.Some? {
      assert tail[1..] == Decimal(a.port.value);
      PortOfDecimal(a.port.value);
    }
  }

  lemma NameRoundTrip(a: Authority)
    requires !a.hostIsIPv6 && HostIsPlain(a) && (a.port.Some? ==> a.port.value <= 65535)
    ensures HostPortOf(a.userinfo, HostHeader(a)) == Ok(a)
  {
    var s := HostHeader(a);
    if a.port.None? {
      FindNone(a.host, ':');
    } else {
      var digits := Decimal(a.port.value);
      NumberOfDecimal(a.port.value);
      PortOfDecimal(a.port.value);
      assert s == a.host + [':'] + digits;
      FindAfter(a.host, ':', digits);
      FindLastIs(a.host, ':', digits);
      assert s[..|a.host|] == a.host && s[|a.host| + 1..] == digits;
      assert s[0] == if a.host == [] then ':' else a.host[0];
    }
  }

  /** hostHeader is read back by the host and port part of parse. */
  lemma HostHeaderRoundTrip(a: Authority)
    requires HostIsPlain(a) && (a.port.Some? ==> a.port.value <= 65535)
    ensures HostPortOf(a.userinfo, HostHeader(a)) == Ok(a)
  {
    if a.hostIsIPv6 { LiteralRoundTrip(a); } else { NameRoundTrip(a); }
  }

  method ParseHostPort(userinfo: string, hostPort: string) returns (r: Result<Authority>)
    ensures r == HostPortOf(userinfo, hostPort)
  {
    if hostPort != [] && hostPort[0] == '[' {
      var close := Find(hostPort, ']');
      if close == |hostPort| { return Fail(UnterminatedLiteral); }
      FindFinds(hostPort, ']', 0);
      var host := hostPort[1..close];
      var after := hostPort[close + 1..];
      if after == [] { return Ok(Authority(userinfo, host, true, None)); }
      if after[0] != ':' { return Fail(TextAfterLiteral); }
      var p := ParsePort(after[1..]);
      if p.Fail? { return Fail(p.error); }
      r := Ok(Authority(userinfo, host, true, Some(p.value)));
    } else {
      var firstColon, lastColon := Find(hostPort, ':'), FindLast(hostPort, ':');
      if firstColon == |hostPort| { return Ok(Authority(userinfo, hostPort, false, None)); }
      if lastColon != Some(firstColon) { return Fail(AmbiguousHost); }
      var p := ParsePort(hostPort[firstColon + 1..]);
      if p.Fail? { return Fail(p.error); }
      r := Ok(Authority(userinfo, hostPort[..firstColon], false, Some(p.value)));
    }
  }

  method ParseAuthority(authority: string) returns (r: Result<Authority>)
    ensures r == AuthorityOf(authority)
  {
    var at := FindLast(authority, '@');
    if at.Some? && at.value < |authority| {
      r := ParseHostPort(authority[..at.value], authority[at.value + 1..]);
    } else {
      r := ParseHostPort("", authority);
    }
  }

  /** A userinfo, which may hold '@', and a host that does not. */
  lemma AuthorityRoundTrip(a: Authority)
    requires HostIsPlain(a) && '@' !in a.host && (a.port.Some? ==> a.port.value <= 65535)
    ensures AuthorityOf((if a.userinfo == "" then "" else a.userinfo + "@") + HostHeader(a)) == Ok(a)
  {
    var h := HostHeader(a);
    HostHeaderRoundTrip(a);
    HostHeaderHasNo(a, '@');
    if a.userinfo == "" {
      FindLastNone(h, '@');
      assert "" + h == h;
    } else {
      var s := a.userinfo + "@" + h;
      assert s == a.userinfo + ['@'] + h;
      FindLastIs(a.userinfo, '@', h);
      assert s[..|a.userinfo|] == a.userinfo && s[|a.userinfo| + 1..] == h;
    }
  }

  lemma HostHeaderHasNo(a: Authority, c: char)
    requires c !in a.host && c !in "[]:" && !Digit(c)
    ensures c !in HostHeader(a)
  {
    if a.port.Some? { NumberOfDecimal(a.port.value); }
  }

  // ---------------------------------------------------------------------------
  // parse
  // ---------------------------------------------------------------------------

  /** How far scheme characters run from `i` on. */
  function SchemeRun(s: string, i: nat): (r: nat)
    requires i <= |s|
    ensures i <= r <= |s|
    decreases |s| - i
  {
    if i < |s| && SchemeChar(s[i]) then SchemeRun(s, i + 1) else i
  }

  /** The length of the scheme, or 0 when there is none. */
  function SchemeLength(s: string): (r: nat)
    ensures r < |s| || r == 0
  {
    if s == [] || !Alpha(s[0]) then 0
    else
      var i := SchemeRun(s, 1);
      if i < |s| && s[i] == ':' then i else 0
  }

  function AfterScheme(s: string): string {
    if SchemeLength(s) > 0 then s[SchemeLength(s) + 1..] else s
  }

  predicate HasAuthority(s: string) {
    |s| >= 2 && s[0] == '/' && s[1] == '/'
  }

  function ParsedUrl(input: string): Result<Url> {
    if HasControl(input) then Fail(ControlCharacter)
    else
      var noQuery := Before(Before(input, '#'), '?');
      ParsedHier(Lower(noQuery[..SchemeLength(noQuery)]), AfterScheme(noQuery),
                 After(Before(input, '#'), '?'), After(input, '#'))
  }

  /** What follows the scheme. */
  function ParsedHier(scheme: string, rest: string, query: string, fragment: string): Result<Url> {
    if HasAuthority(rest) then
      var slash := Find(rest[2..], '/');
      var a := AuthorityOf(rest[2..][..slash]);
      if a.Fail? then Fail(a.error) else Ok(Url(scheme, a.value, rest[2..][slash..], query, fragment))
    else Ok(Url(scheme, NO_AUTHORITY, rest, query, fragment))
  }

  method RejectControl(input: string) returns (found: bool)
    ensures found == HasControl(input)
  {
    for i := 0 to |input|
      invariant forall k | 0 <= k < i :: !Control(input[k])
    {
      if Control(input[i]) { return true; }
    }
    found := false;
  }

  method Parse(input: string) returns (r: Result<Url>)
    ensures r == ParsedUrl(input)
  {
    var control := RejectControl(input);
    if control { return Fail(ControlCharacter); }
    var rest, fragment, query := input, "", "";
    var hash := Find(rest, '#');
    if hash < |rest| { fragment := rest[hash + 1..]; }
    rest := rest[..hash];
    var qm := Find(rest, '?');
    if qm < |rest| { query := rest[qm + 1..]; }
    rest := rest[..qm];
    var scheme;
    scheme, rest := ParseScheme(rest);
    r := ParseHier(scheme, rest, query, fragment);
  }

  /** The scheme, if there is one, and what follows it. */
  method ParseScheme(s: string) returns (scheme: string, rest: string)
    ensures scheme == Lower(s[..SchemeLength(s)]) && rest == AfterScheme(s)
  {
    scheme, rest := "", s;
    if s != [] && Alpha(s[0]) {
      var i: nat := 1;
      while i < |s| && SchemeChar(s[i])
        invariant 1 <= i <= |s| && SchemeRun(s, i) == SchemeRun(s, 1)
      {
        i := i + 1;
      }
      if i < |s| && s[i] == ':' {
        scheme := Lower(s[..i]);
        rest := s[i + 1..];
      }
    }
  }

  method ParseHier(scheme: string, s: string, query: string, fragment: string) returns (r: Result<Url>)
    ensures r == ParsedHier(scheme, s, query, fragment)
  {
    var a, rest := NO_AUTHORITY, s;
    if |rest| >= 2 && rest[0] == '/' && rest[1] == '/' {
      rest := rest[2..];
      var slash := Find(rest, '/');
      var authority := rest[..slash];
      rest := rest[slash..];
      var parsed := ParseAuthority(authority);
      if parsed.Fail? { return Fail(parsed.error); }
      a := parsed.value;
    }
    r := Ok(Url(scheme, a, rest, query, fragment));
  }

  // ---------------------------------------------------------------------------
  // url.build
  // ---------------------------------------------------------------------------

  /** `NotFinite` is NaN or an infinity. */
  datatype PortField = NoPort | NotANumber | NotFinite | PortNumber(value: real)

  /** `BadQuery` is neither a string nor a map, or a map with a key that is no string. */
  datatype QueryField = NoQuery | QueryString(text: string) | QueryMap(entries: seq<(string, QueryValue)>) | BadQuery

  /** The component map; a string field that is absent or no string is empty. */
  datatype Parts = Parts(scheme: string, userinfo: string, host: string, port: PortField,
                         path: string, query: QueryField, fragment: string)

  /** The port to print, if any; None where the source throws. */
  function PortToPrint(scheme: string, port: PortField): Option<Option<nat>> {
    match port
    case NoPort => Some(None)
    case PortNumber(x) =>
      if !(1.0 <= x <= 65535.0) || x != x.Floor as real then None
      else if (scheme == "http" && x == 80.0) || (scheme == "https" && x == 443.0) then Some(None)
      else Some(Some(x.Floor))
    case _ => None
  }

  /** The query text; None where the source throws. */
  function QueryOf(query: QueryField): Option<string> {
    match query
    case NoQuery => Some("")
    case QueryString(text) => Some(text)
    case QueryMap(entries) =>
      if EntryPairs(entries).None? then None else Some(QueryText(EntryPairs(entries).value))
    case BadQuery => None
  }

  predicate FullForm(p: Parts) {
    p.scheme != "" && p.host != ""
  }

  function HostText(host: string): string {
    if ':' in host && host[0] != '[' then "[" + host + "]" else host
  }

  function UserinfoText(userinfo: string): string {
    if userinfo == "" then "" else userinfo + "@"
  }

  function PortText(port: Option<nat>): string {
    if port.Some? then ":" + Decimal(port.value) else ""
  }

  function PathText(p: Parts): string {
    if FullForm(p) && p.path != "" && p.path[0] != '/' then "/" + p.path else p.path
  }

  /** Everything in front of the path. */
  function Head(p: Parts): Option<string> {
    var scheme := Lower(p.scheme);
    if FullForm(p) then
      var port := PortToPrint(scheme, p.port);
      if port.None? then None
      else Some(scheme + "://" + (UserinfoText(p.userinfo) + (HostText(p.host) + PortText(port.value))))
    else if p.scheme != "" then Some(scheme + ":")
    else Some("")
  }

  function Built(p: Parts): Option<string> {
    var head, query := Head(p), QueryOf(p.query);
    if head.None? || query.None? then None
    else
      var middle := Middle(head.value + PathText(p), query.value);
      Some(if p.fragment == "" then middle else middle + "#" + Encoded(p.fragment))
  }

  method BuildHead(p: Parts) returns (r: Option<string>)
    ensures r == Head(p)
  {
    var out := "";
    var schemeStr := Lower(p.scheme);
    if schemeStr != "" && p.host != "" {
      var authority := "";
      if p.userinfo != "" { authority := p.userinfo + "@"; }
      var host := if Find(p.host, ':') != |p.host| && p.host[0] != '[' then "[" + p.host + "]" else p.host;
      FindFinds(p.host, ':', 0);
      assert host == HostText(p.host);
      var port := PortToPrint(schemeStr, p.port);
      if port.None? { return None; }
      if port.value.Some? { host := host + (":" + Decimal(port.value.value)); }
      assert host == HostText(p.host) + PortText(port.value);
      out := schemeStr + "://" + (authority + host);
    } else if schemeStr != "" {
      out := schemeStr + ":";
    }
    r := Some(out);
  }

  method BuildQueryField(query: QueryField) returns (r: Option<string>)
    ensures r == QueryOf(query)
  {
    match query
    case NoQuery => r := Some("");
    case QueryString(text) => r := Some(text);
    case QueryMap(entries) => r := BuildQuery(entries);
    case BadQuery => r := None;
  }

  method Build(p: Parts) returns (r: Option<string>)
    ensures r == Built(p)
  {
    var head := BuildHead(p);
    if head.None? { return None; }
    var out := head.value;
    var path := p.path;
    if p.scheme != "" && p.host != "" && path != "" && path[0] != '/' { path := "/" + path; }
    out := out + path;
    var query := BuildQueryField(p.query);
    if query.None? { return None; }
    if query.value != "" { out := out + "?" + query.value; }
    if p.fragment != "" {
      var f := PercentEncode(p.fragment);
      out := out + "#" + f;
    }
    r := Some(out);
  }

  // ---------------------------------------------------------------------------
  // Parsing undoes building
  // ---------------------------------------------------------------------------

  /** A part that cannot end the part it stands in. */
  predicate Free(s: string, stops: string) {
    forall i | 0 <= i < |s| :: !Control(s[i]) && s[i] !in stops
  }

  /** An address literal, with or without brackets, or a name. */
  predicate WellFormedHost(host: string) {
    && Free(host, "/?#@")
    && if host != "" && host[0] == '[' then |host| >= 2 && Find(host, ']') == |host| - 1
       else ':' in host ==> ']' !in host
  }

  /** The components of section 3 of RFC 3986. */
  predicate WellFormed(p: Parts) {
    && (p.scheme != "" ==> ValidScheme(p.scheme))
    && Free(p.userinfo, "/?#") && WellFormedHost(p.host)
    && (FullForm(p) ==> PortToPrint(Lower(p.scheme), p.port).Some?)
    && Free(p.path, "?#")
    && (!FullForm(p) ==> !HasAuthority(p.path))
    && (p.scheme == "" ==> SchemeLength(p.path) == 0)
    && QueryOf(p.query).Some? && Free(QueryOf(p.query).value, "#")
  }

  /** The host of the components without brackets. */
  function HostName(host: string): string {
    if host != "" && host[0] == '[' && |host| >= 2 then host[1..|host| - 1] else host
  }

  function ExpectedAuthority(p: Parts): Authority
    requires FullForm(p) ==> PortToPrint(Lower(p.scheme), p.port).Some?
  {
    if FullForm(p) then
      Authority(p.userinfo, HostName(p.host), ':' in p.host || p.host[0] == '[',
                PortToPrint(Lower(p.scheme), p.port).value)
    else NO_AUTHORITY
  }

  /** The components as parse returns them. */
  function Expected(p: Parts): Url
    requires WellFormed(p)
  {
    Url(Lower(p.scheme), ExpectedAuthority(p), PathText(p), QueryOf(p.query).value, Encoded(p.fragment))
  }

  lemma AuthorityParses(p: Parts)
    requires WellFormed(p) && FullForm(p)
    ensures var a := ExpectedAuthority(p);
            && UserinfoText(p.userinfo) + (HostText(p.host) + PortText(a.port)) ==
               (if a.userinfo == "" then "" else a.userinfo + "@") + HostHeader(a)
            && AuthorityOf(UserinfoText(p.userinfo) + (HostText(p.host) + PortText(a.port))) == Ok(a)
  {
    var a := ExpectedAuthority(p);
    FindFinds(p.host, ']', 0);
    if p.host[0] == '[' { assert p.host == "[" + a.host + "]"; }
    assert HostText(p.host) + PortText(a.port) == HostHeader(a) by {
      HeaderText(a, HostText(p.host));
    }
    AuthorityRoundTrip(a);
  }

  lemma HeaderText(a: Authority, host: string)
    requires host == if a.hostIsIPv6 then "[" + a.host + "]" else a.host
    ensures host + PortText(a.port) == HostHeader(a)
  {
    if a.port.Some? {
      assert host + (":" + Decimal(a.port.value)) == host + ":" + Decimal(a.port.value);
    }
  }

  lemma FreeConcat(a: string, b: string, stops: string)
    requires Free(a, stops) && Free(b, stops)
    ensures Free(a + b, stops)
  {
  }

  lemma LowerScheme(s: string)
    requires ValidScheme(s)
    ensures ValidScheme(Lower(s)) && Lower(Lower(s)) == Lower(s) && Free(Lower(s), ":?#")
  {
    var t := Lower(s);
    forall i | 0 <= i < |t| ensures SchemeChar(t[i]) && LowerChar(t[i]) == t[i] { assert SchemeChar(s[i]); }
    assert Lower(t) == t;
  }

  lemma {:induction false} SchemeRunEnds(s: string, i: nat, n: nat)
    requires i <= n < |s| && !SchemeChar(s[n]) && forall k | i <= k < n :: SchemeChar(s[k])
    ensures SchemeRun(s, i) == n
    decreases n - i
  {
    if i < n { SchemeRunEnds(s, i + 1, n); }
  }

  lemma SchemeSplits(scheme: string, rest: string)
    requires ValidScheme(scheme)
    ensures var s := scheme + ":" + rest;
            SchemeLength(s) == |scheme| && s[..|scheme|] == scheme && AfterScheme(s) == rest
  {
    var s := scheme + ":" + rest;
    assert s[0] == scheme[0] && s[|scheme|] == ':';
    SchemeRunEnds(s, 1, |scheme|);
  }

  lemma AuthorityFree(p: Parts)
    requires WellFormed(p) && FullForm(p)
    ensures Free(UserinfoText(p.userinfo) + (HostText(p.host) + PortText(ExpectedAuthority(p).port)), "/?#")
  {
    var port := ExpectedAuthority(p).port;
    if port.Some? { NumberOfDecimal(port.value); }
    assert Free(PortText(port), "/?#");
    assert Free(HostText(p.host), "/?#");
    FreeConcat(HostText(p.host), PortText(port), "/?#");
    FreeConcat(UserinfoText(p.userinfo), HostText(p.host) + PortText(port), "/?#");
  }

  lemma FrontText(scheme: string, authority: string, path: string)
    ensures scheme + "://" + authority + path == scheme + ":" + ("//" + authority + path)
  {
  }

  lemma FrontFree(scheme: string, authority: string, path: string)
    requires Free(scheme, ":?#") && Free(authority, "/?#") && Free(path, "?#")
    ensures Free(scheme + ":" + ("//" + authority + path), "?#")
  {
    FreeConcat(scheme, ":", "?#");
    FreeConcat("//", authority, "?#");
    FreeConcat("//" + authority, path, "?#");
    FreeConcat(scheme + ":", "//" + authority + path, "?#");
  }

  /** The text in front of the query, parsed. */
  lemma FullFormParses(p: Parts, query: string, fragment: string)
    requires WellFormed(p) && FullForm(p)
    ensures var scheme, front := Lower(p.scheme), Head(p).value + PathText(p);
            && Free(front, "?#")
            && front[..SchemeLength(front)] == scheme
            && ParsedHier(scheme, AfterScheme(front), query, fragment) ==
               Ok(Url(scheme, ExpectedAuthority(p), PathText(p), query, fragment))
  {
    var scheme, path := Lower(p.scheme), PathText(p);
    var authority := UserinfoText(p.userinfo) + (HostText(p.host) + PortText(ExpectedAuthority(p).port));
    LowerScheme(p.scheme);
    AuthorityFree(p);
    AuthorityParses(p);
    FrontText(scheme, authority, path);
    FrontFree(scheme, authority, path);
    SchemeSplits(scheme, "//" + authority + path);
    RestParses(authority, path, scheme, query, fragment);
  }

  lemma RestParses(authority: string, path: string, scheme: string, query: string, fragment: string)
    requires Free(authority, "/?#") && AuthorityOf(authority).Ok? && (path != "" ==> path[0] == '/')
    ensures ParsedHier(scheme, "//" + authority + path, query, fragment) ==
            Ok(Url(scheme, AuthorityOf(authority).value, path, query, fragment))
  {
    var rest := "//" + authority + path;
    assert rest[0] == '/' && rest[1] == '/' && rest[2..] == authority + path;
    FindIs(authority + path, '/', 0, |authority|);
    assert (authority + path)[..|authority|] == authority && (authority + path)[|authority|..] == path;
  }

  lemma ShortFormParses(p: Parts, query: string, fragment: string)
    requires WellFormed(p) && !FullForm(p)
    ensures var scheme, front := Lower(p.scheme), Head(p).value + PathText(p);
            && Free(front, "?#")
            && front[..SchemeLength(front)] == scheme
            && ParsedHier(scheme, AfterScheme(front), query, fragment) ==
               Ok(Url(scheme, NO_AUTHORITY, PathText(p), query, fragment))
  {
    if p.scheme != "" {
      LowerScheme(p.scheme);
      SchemeAndPath(Lower(p.scheme), p.path);
      assert Head(p).value + PathText(p) == Lower(p.scheme) + ":" + p.path;
    } else {
      assert Head(p).value + PathText(p) == p.path;
    }
  }

  lemma SchemeAndPath(scheme: string, path: string)
    requires ValidScheme(scheme) && Free(scheme, "?#:") && Free(path, "?#")
    ensures var front := scheme + ":" + path;
            Free(front, "?#") && front[..SchemeLength(front)] == scheme && AfterScheme(front) == path
  {
    SchemeSplits(scheme, path);
    FreeConcat(scheme, ":", "?#");
    FreeConcat(scheme + ":", path, "?#");
  }

  lemma FreeHasNo(s: string, stops: string, c: char)
    requires Free(s, stops) && c in stops
    ensures c !in s && !HasControl(s)
  {
  }

  lemma CutUndoesJoin(a: string, c: char, b: string)
    requires c !in a
    ensures var s := if b == "" then a else a + [c] + b;
            Before(s, c) == a && After(s, c) == b
  {
    if b == "" { FindNone(a, c); } else { FindAfter(a, c, b); }
  }

  lemma JoinIsFree(a: string, sep: string, b: string, stops: string)
    requires Free(a, stops) && Free(sep, stops) && Free(b, stops)
    ensures Free(if b == "" then a else a + sep + b, stops)
  {
    FreeConcat(a, sep, stops);
    FreeConcat(a + sep, b, stops);
  }

  /** The text in front of the fragment, and the whole text. */
  function Middle(front: string, query: string): string {
    if query == "" then front else front + "?" + query
  }

  function Joined(front: string, query: string, fragment: string): string {
    if fragment == "" then Middle(front, query) else Middle(front, query) + "#" + fragment
  }

  /** The cuts at '#' and '?' undo the joins. */
  lemma CutsUndoJoins(front: string, query: string, fragment: string)
    requires Free(front, "?#") && Free(query, "#") && !HasControl(fragment)
    ensures var middle, whole := Middle(front, query), Joined(front, query, fragment);
            && !HasControl(whole)
            && Before(whole, '#') == middle && After(whole, '#') == fragment
            && Before(middle, '?') == front && After(middle, '?') == query
  {
    FreeHasNo(front, "?#", '?');
    CutUndoesJoin(front, '?', query);
    JoinIsFree(front, "?", query, "#");
    FreeHasNo(Middle(front, query), "#", '#');
    CutUndoesJoin(Middle(front, query), '#', fragment);
    JoinIsFree(Middle(front, query), "#", fragment, "");
  }

  /** url.parse returns, for every well-formed component set, what url.build was given: the
      scheme in lower case, the path with a slash in front, the fragment still encoded, and
      the authority as far as it was printed. */
  lemma ParseUndoesBuild(p: Parts)
    requires WellFormed(p)
    ensures Built(p).Some? && ParsedUrl(Built(p).value) == Ok(Expected(p))
    ensures Bytes(p.fragment) ==> Decoded(Expected(p).fragment) == p.fragment
  {
    var query, fragment := QueryOf(p.query).value, Encoded(p.fragment);
    EncodedIsFree(p.fragment);
    FrontParses(p, query, fragment);
    LowerTwice(p.scheme);
    TextParses(Head(p).value + PathText(p), query, fragment, Lower(p.scheme), Expected(p));
    assert Built(p) == Some(Joined(Head(p).value + PathText(p), query, fragment));
    if Bytes(p.fragment) { DecodedOfEncoded(p.fragment); }
  }

  lemma FrontParses(p: Parts, query: string, fragment: string)
    requires WellFormed(p)
    ensures var scheme, front := Lower(p.scheme), Head(p).value + PathText(p);
            && Free(front, "?#")
            && front[..SchemeLength(front)] == scheme
            && ParsedHier(scheme, AfterScheme(front), query, fragment) ==
               Ok(Url(scheme, ExpectedAuthority(p), PathText(p), query, fragment))
  {
    if FullForm(p) { FullFormParses(p, query, fragment); } else { ShortFormParses(p, query, fragment); }
  }

  /** Parsing the joined text is parsing the part in front of the query. */
  lemma TextParses(front: string, query: string, fragment: string, scheme: string, u: Url)
    requires Free(front, "?#") && Free(query, "#") && !HasControl(fragment)
    requires front[..SchemeLength(front)] == scheme == Lower(scheme)
    requires ParsedHier(scheme, AfterScheme(front), query, fragment) == Ok(u)
    ensures ParsedUrl(Joined(front, query, fragment)) == Ok(u)
  {
    CutsUndoJoins(front, query, fragment);
  }

  lemma EncodedIsFree(s: string)
    ensures !HasControl(Encoded(s)) && (Encoded(s) == "" <==> s == "")
  {
    EncodedIsPlain(s);
  }

  lemma LowerTwice(s: string)
    ensures Lower(Lower(s)) == Lower(s)
  {
  }

  method BuildThenParse(p: Parts) returns (r: Result<Url>)
    requires WellFormed(p)
    ensures r == Ok(Expected(p))
  {
    ParseUndoesBuild(p);
    var text := Build(p);
    r := Parse(text.value);
  }

  // ---------------------------------------------------------------------------
  // When the authority comes back
  // ---------------------------------------------------------------------------

  predicate DefaultPort(p: Parts) {
    && p.port.PortNumber?
    && ((Lower(p.scheme) == "http" && p.port.value == 80.0)
        || (Lower(p.scheme) == "https" && p.port.value == 443.0))
  }

  /** The userinfo, the host and the port are those of the components, a default port
      aside. */
  predicate Recovers(a: Authority, p: Parts) {
    && a.userinfo == p.userinfo && a.host == HostName(p.host)
    && match p.port
       case PortNumber(x) =>
         if a.port.Some? then a.port.value as real == x else DefaultPort(p)
       case _ => a.port.None? && p.port.NoPort?
  }

  /** Parsing gives the authority back if and only if both a scheme and a host were given,
      or no part of it was: build prints none of it without both. */
  lemma AuthorityComesBackExactlyWhen(p: Parts)
    requires WellFormed(p)
    ensures Recovers(Expected(p).authority, p) <==>
              || FullForm(p)
              || (p.userinfo == "" && HostName(p.host) == "" && (p.port.NoPort? || DefaultPort(p)))
  {
  }

  /** Without a scheme, and without a host, the authority is lost. */
  lemma AuthorityIsLost()
    ensures var p := Parts("", "u", "h", NoPort, "/x", NoQuery, "");
            WellFormed(p) && Expected(p).authority == NO_AUTHORITY && !Recovers(NO_AUTHORITY, p)
    ensures var p := Parts("file", "u", "", PortNumber(8080.0), "/x", NoQuery, "");
            WellFormed(p) && Expected(p).authority == NO_AUTHORITY && !Recovers(NO_AUTHORITY, p)
  {
  }

  // ---------------------------------------------------------------------------
  // A known URL
  // ---------------------------------------------------------------------------

  function KnownParts(): Parts {
    Parts("HTTP", "me", "::1", PortNumber(8080.0), "a/b", QueryString("q=1"), "top")
  }

  lemma KnownIsWellFormed()
    ensures WellFormed(KnownParts())
  {
  }

  lemma KnownDecimal()
    ensures Decimal(8080) == "8080"
  {
    assert Decimal(80) == "80" && Decimal(808) == "808";
  }

  lemma KnownFragment()
    ensures Encoded("top") == "top"
  {
    assert "top"[1..] == "op" && "op"[1..] == "p" && "p"[1..] == "";
  }

  lemma KnownHost()
    ensures Lower("HTTP") == "http" && HostText("::1") == "[::1]" && FullForm(KnownParts())
  {
    assert "::1"[0] == ':';
  }

  lemma KnownPort()
    ensures PortToPrint("http", PortNumber(8080.0)) == Some(Some(8080))
  {
    assert (8080.0).Floor == 8080;
  }

  const KNOWN_HEAD := "http://me@[::1]:8080"
  const KNOWN_TEXT := "http://me@[::1]:8080/a/b?q=1#top"

  lemma KnownStrings()
    ensures "http" + "://" + ("me@" + ("[::1]" + ":8080")) == KNOWN_HEAD
    ensures KNOWN_HEAD + "/a/b" + "?" + "q=1" + "#" + "top" == KNOWN_TEXT
  {
  }

  lemma KnownParted()
    ensures UserinfoText("me") == "me@" && PortText(Some(8080)) == ":8080"
  {
    KnownDecimal();
  }

  lemma KnownHead()
    ensures Head(KnownParts()) == Some(KNOWN_HEAD)
  {
    KnownHost();
    KnownPort();
    KnownParted();
    KnownStrings();
  }

  lemma KnownPath()
    ensures PathText(KnownParts()) == "/a/b"
  {
    assert "a/b"[0] == 'a';
  }

  lemma KnownExpected()
    ensures WellFormed(KnownParts())
    ensures Expected(KnownParts()) == Url("http", Authority("me", "::1", true, Some(8080)), "/a/b", "q=1", "top")
  {
    KnownIsWellFormed();
    KnownHost();
    KnownPort();
    KnownPath();
    KnownFragment();
    assert HostName("::1") == "::1" by { assert "::1"[0] == ':'; }
    assert "::1"[0] == ':' && ':' in "::1";
  }

  lemma KnownBuilt()
    ensures Built(KnownParts()) == Some(KNOWN_TEXT)
  {
    KnownHead();
    KnownPath();
    KnownFragment();
    KnownStrings();
    assert QueryOf(KnownParts().query) == Some("q=1");
  }

  /** The text that is built, and what it is parsed to. */
  lemma KnownUrl()
    ensures Built(KnownParts()) == Some(KNOWN_TEXT)
    ensures ParsedUrl(KNOWN_TEXT) == Ok(Url("http", Authority("me", "::1", true, Some(8080)), "/a/b", "q=1", "top"))
  {
    KnownBuilt();
    KnownExpected();
    ParseUndoesBuild(KnownParts());
  }

  // ---------------------------------------------------------------------------
  // What is refused
  // ---------------------------------------------------------------------------

  /** A NUL, a carriage return or a line feed anywhere refuses the whole text. */
  lemma ControlIsRefused(s: string)
    requires '\0' in s || '\r' in s || '\n' in s
    ensures ParsedUrl(s) == Fail(ControlCharacter)
  {
  }

  /** A name with a port: what follows the one colon must be one to five figures, up to 65535. */
  lemma PortRules(host: string, port: string, userinfo: string)
    requires ':' !in host && ':' !in port && (host == "" || host[0] != '[')
    ensures var r := HostPortOf(userinfo, host + [':'] + port);
            && (r.Ok? <==> 1 <= |port| <= 5 && (forall i | 0 <= i < |port| :: '0' <= port[i] <= '9')
                           && Number(port) <= 65535)
            && (r.Ok? ==> r.value == Authority(userinfo, host, false, Some(Number(port))))
            && (port == "" ==> r == Fail(EmptyPort)) && (|port| > 5 ==> r == Fail(PortOutOfRange))
            && (0 < |port| <= 5 && (exists i | 0 <= i < |port| :: !('0' <= port[i] <= '9')) ==>
                  r == Fail(NonNumericPort))
  {
    var s := host + [':'] + port;
    FindAfter(host, ':', port);
    FindLastIs(host, ':', port);
    assert s[..|host|] == host && s[|host| + 1..] == port;
  }

  /** More than one colon, and a bracket that is not closed or is followed by other than a
      port, are refused. */
  lemma HostRules(a: string, b: string, c: string, userinfo: string)
    ensures ':' !in a && ':' !in b && ':' !in c && (a == "" || a[0] != '[') ==>
              HostPortOf(userinfo, a + [':'] + b + [':'] + c) == Fail(AmbiguousHost)
    ensures ']' !in a ==> HostPortOf(userinfo, ['['] + a) == Fail(UnterminatedLiteral)
    ensures ']' !in a && b != "" && b[0] != ':' ==>
              HostPortOf(userinfo, ['['] + a + [']'] + b) == Fail(TextAfterLiteral)
  {
    if ':' !in a && ':' !in b && ':' !in c {
      var s := a + [':'] + b + [':'] + c;
      assert s == a + [':'] + (b + [':'] + c);
      FindAfter(a, ':', b + [':'] + c);
      FindLastIs(a + [':'] + b, ':', c);
    }
    if ']' !in a {
      FindNone(['['] + a, ']');
      FindAfter(['['] + a, ']', b);
      var s := ['['] + a + [']'] + b;
      assert s[|a| + 2..] == b;
    }
  }
}
